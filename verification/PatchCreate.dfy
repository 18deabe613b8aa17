/** Generating JSON Patch as cJSON_Utils.c does it, and the round trip through applying it. */
module PatchCreate {
  import opened Prelude
  import opened Json
  import opened Decimal
  import opened Sorting
  import opened Compare
  import opened Pointer
  import opened PatchApply
  import opened PatchMeaning

  /** One generated operation, located relative to the values compared. */
  datatype Edit = Edit(kind: Kind, tokens: seq<Str>, value: Option<Json>)

  const DASH: Str := [45]

  /** The edits of a child, located from its parent. */
  function Under(token: Str, edits: seq<Edit>): (r: seq<Edit>)
    ensures |r| == |edits|
  {
    seq(|edits|, i requires 0 <= i < |edits| => Edit(edits[i].kind, [token] + edits[i].tokens, edits[i].value))
  }

  /** The operations `create_patches` generates. */
  function Edits(cased: bool, before: Json, after: Json): seq<Edit>
    decreases Height(before), 1, 0
  {
    match (before, after)
    case (Null, Null) => []
    case (False, False) => []
    case (True, True) => []
    case (Number(m), Number(n)) => if m == n then [] else Replacing(after)
    case (Real(l), Real(k)) => if l == k then [] else Replacing(after)
    case (String(s), String(t)) => if s == t then [] else Replacing(after)
    case (Array(x), Array(y)) => EditItems(cased, x, y, 0, Height(before))
    case (Object(x), Object(y)) => EditMembers(cased, SortMembers(cased, x), SortMembers(cased, y), Height(before))
    case _ => Replacing(after)
  }

  function Replacing(after: Json): seq<Edit> {
    [Edit(Replace, [], Some(after))]
  }

  /** The walk over two arrays from index `k` on; leftovers are all removed at the same index. */
  function EditItems(cased: bool, x: seq<Json>, y: seq<Json>, k: nat, ghost bound: nat): seq<Edit>
    requires forall i | 0 <= i < |x| :: Height(x[i]) < bound
    decreases bound, 0, |x| + |y|
  {
    if x == [] && y == [] then []
    else if y == [] then [Edit(Kind.Remove, [Digits(k)], None)] + EditItems(cased, x[1..], y, k, bound)
    else if x == [] then [Edit(Add, [DASH], Some(y[0]))] + EditItems(cased, x, y[1..], k + 1, bound)
    else Under(Digits(k), Edits(cased, x[0], y[0])) + EditItems(cased, x[1..], y[1..], k + 1, bound)
  }

  /** The walk over two sorted objects. */
  function EditMembers(cased: bool, x: seq<Member>, y: seq<Member>, ghost bound: nat): seq<Edit>
    requires forall i | 0 <= i < |x| :: Height(x[i].value) < bound
    decreases bound, 0, |x| + |y|
  {
    if x == [] && y == [] then []
    else if x == [] || (y != [] && Order(cased, x[0].key, y[0].key) > 0) then
      [Edit(Add, [y[0].key], Some(y[0].value))] + EditMembers(cased, x, y[1..], bound)
    else if y == [] || Order(cased, x[0].key, y[0].key) < 0 then
      [Edit(Kind.Remove, [x[0].key], None)] + EditMembers(cased, x[1..], y, bound)
    else
      Under(x[0].key, Edits(cased, x[0].value, y[0].value)) + EditMembers(cased, x[1..], y[1..], bound)
  }

  // ----- running the edits on values -----

  function ValueOf(cased: bool, value: Option<Json>): Value {
    if value.None? then VNull else Meaning(cased, value.value)
  }

  /** The operations in order, by RFC 6902. */
  function RfcRun(cased: bool, v: Value, edits: seq<Edit>): Option<Value>
    decreases |edits|
  {
    if edits == [] then Some(v)
    else
      var r := Rfc6902(cased, v, edits[0].kind, edits[0].tokens, ValueOf(cased, edits[0].value));
      if r.None? then None else RfcRun(cased, r.value, edits[1..])
  }

  lemma {:induction false} RunConcat(cased: bool, v: Value, a: seq<Edit>, b: seq<Edit>)
    requires RfcRun(cased, v, a).Some?
    ensures RfcRun(cased, v, a + b) == RfcRun(cased, RfcRun(cased, v, a).value, b)
    decreases |a|
  {
    hide Rfc6902, ValueOf;
    if a == [] {
      assert a + b == b;
    } else {
      assert (a + b)[0] == a[0] && (a + b)[1..] == a[1..] + b;
      var r := Rfc6902(cased, v, a[0].kind, a[0].tokens, ValueOf(cased, a[0].value));
      RunConcat(cased, r.value, a[1..], b);
    }
  }

  lemma RunOne(cased: bool, v: Value, e: Edit, rest: seq<Edit>)
    ensures RfcRun(cased, v, [e] + rest)
         == (var r := Rfc6902(cased, v, e.kind, e.tokens, ValueOf(cased, e.value));
             if r.None? then None else RfcRun(cased, r.value, rest))
  {
    assert ([e] + rest)[0] == e && ([e] + rest)[1..] == rest;
  }

  /** Only a replacement is located at the value itself. */
  ghost predicate Nestable(edits: seq<Edit>) {
    forall i | 0 <= i < |edits| :: edits[i].tokens == [] ==> edits[i].kind == Replace
  }

  lemma UnderNone(token: Str)
    ensures Under(token, []) == []
  {
  }

  lemma UnderHead(token: Str, edits: seq<Edit>)
    requires edits != []
    ensures Under(token, edits)[0] == Edit(edits[0].kind, [token] + edits[0].tokens, edits[0].value)
    ensures Under(token, edits)[1..] == Under(token, edits[1..])
  {
  }

  /** Running a child's edits from its parent object changes just that member. */
  lemma {:induction false} UnderObject(cased: bool, m: map<Str, Value>, token: Str,
      edits: seq<Edit>)
    requires Nestable(edits) && Fold(cased, token) in m
    requires RfcRun(cased, m[Fold(cased, token)], edits).Some?
    ensures var f := Fold(cased, token);
      RfcRun(cased, VObject(m), Under(token, edits)) == Some(VObject(m[f := RfcRun(cased, m[f], edits).value]))
    decreases |edits|
  {
    hide Fold, ValueOf, Under;
    var f := Fold(cased, token);
    if edits == [] {
      UnderNone(token);
      assert m[f := m[f]] == m;
    } else {
      var e := edits[0];
      UnderHead(token, edits);
      ObjectStep(cased, m, token, e);
      hide Rfc6902;
      var r := Rfc6902(cased, m[f], e.kind, e.tokens, ValueOf(cased, e.value)).value;
      UnderObject(cased, m[f := r], token, edits[1..]);
      var w := RfcRun(cased, r, edits[1..]).value;
      assert m[f := r][f := w] == m[f := w];
    }
  }

  lemma ObjectStep(cased: bool, m: map<Str, Value>, token: Str, e: Edit)
    requires (e.tokens == [] ==> e.kind == Replace) && Fold(cased, token) in m
    requires Rfc6902(cased, m[Fold(cased, token)], e.kind, e.tokens, ValueOf(cased, e.value)).Some?
    ensures var f, w := Fold(cased, token), ValueOf(cased, e.value);
      Rfc6902(cased, VObject(m), e.kind, [token] + e.tokens, w)
      == Some(VObject(m[f := Rfc6902(cased, m[f], e.kind, e.tokens, w).value]))
  {
    hide Fold, ValueOf;
    assert ([token] + e.tokens)[1..] == e.tokens;
  }

  lemma ArrayStep(cased: bool, a: seq<Value>, k: nat, e: Edit)
    requires (e.tokens == [] ==> e.kind == Replace) && k < |a| && k < 0x1_0000_0000_0000_0000
    requires Rfc6902(cased, a[k], e.kind, e.tokens, ValueOf(cased, e.value)).Some?
    ensures var w := ValueOf(cased, e.value);
      Rfc6902(cased, VArray(a), e.kind, [Digits(k)] + e.tokens, w)
      == Some(VArray(a[k := Rfc6902(cased, a[k], e.kind, e.tokens, w).value]))
  {
    DigitsIndex(k);
    hide Fold, ValueOf, RfcIndex;
    assert ([Digits(k)] + e.tokens)[1..] == e.tokens;
  }

  lemma {:induction false} UnderArray(cased: bool, a: seq<Value>, k: nat, edits: seq<Edit>)
    requires Nestable(edits) && k < |a| && k < 0x1_0000_0000_0000_0000
    requires RfcRun(cased, a[k], edits).Some?
    ensures RfcRun(cased, VArray(a), Under(Digits(k), edits)) == Some(VArray(a[k := RfcRun(cased, a[k], edits).value]))
    decreases |edits|
  {
    hide ValueOf, Under, Digits;
    if edits == [] {
      UnderNone(Digits(k));
      assert a[k := a[k]] == a;
    } else {
      var e := edits[0];
      UnderHead(Digits(k), edits);
      ArrayStep(cased, a, k, e);
      hide Rfc6902;
      var r := Rfc6902(cased, a[k], e.kind, e.tokens, ValueOf(cased, e.value)).value;
      UnderArray(cased, a[k := r], k, edits[1..]);
      var w := RfcRun(cased, r, edits[1..]).value;
      assert a[k := r][k := w] == a[k := w];
    }
  }

  // ----- the edits lead from one value to the other -----

  function Meanings(cased: bool, items: seq<Json>): (r: seq<Value>)
    ensures |r| == |items|
  {
    seq(|items|, i requires 0 <= i < |items| => Meaning(cased, items[i]))
  }

  lemma MeaningsCons(cased: bool, items: seq<Json>)
    requires items != []
    ensures Meanings(cased, items) == [Meaning(cased, items[0])] + Meanings(cased, items[1..])
  {
    hide Meaning;
  }

  lemma {:induction false} EditsReach(cased: bool, before: Json, after: Json)
    requires Unique(cased, before) && Unique(cased, after)
    requires Addressable(before)
    ensures RfcRun(cased, Meaning(cased, before), Edits(cased, before, after)) == Some(Meaning(cased, after))
    ensures Nestable(Edits(cased, before, after))
    decreases Height(before), 2, 0
  {
    match (before, after)
    case (Array(x), Array(y)) =>
      ArraysReach(cased, x, y);
    case (Object(x), Object(y)) =>
      ObjectsReach(cased, x, y);
    case _ =>
      ScalarsReach(cased, before, after);
  }

  lemma ScalarsReach(cased: bool, before: Json, after: Json)
    requires !(before.Array? && after.Array?) && !(before.Object? && after.Object?)
    ensures RfcRun(cased, Meaning(cased, before), Edits(cased, before, after)) == Some(Meaning(cased, after))
    ensures Nestable(Edits(cased, before, after))
  {
    var r := Replacing(after);
    assert RfcRun(cased, Meaning(cased, before), r) == Some(Meaning(cased, after)) by {
      hide Meaning;
      RunOne(cased, Meaning(cased, before), r[0], []);
      assert [r[0]] + [] == r;
    }
  }

  lemma {:induction false} ArraysReach(cased: bool, x: seq<Json>, y: seq<Json>)
    requires Unique(cased, Array(x)) && Unique(cased, Array(y))
    requires Addressable(Array(x))
    ensures var before, after := Array(x), Array(y);
      && RfcRun(cased, Meaning(cased, before), Edits(cased, before, after)) == Some(Meaning(cased, after))
      && Nestable(Edits(cased, before, after))
    decreases Height(Array(x)), 1, 0
  {
    hide EditItems, RfcRun;
    ItemsReach(cased, x, y, 0, Height(Array(x)), []);
    assert Meaning(cased, Array(x)).items == [] + Meanings(cased, x);
    assert Meaning(cased, Array(y)).items == [] + Meanings(cased, y);
  }

  lemma {:induction false} ItemsReach(cased: bool, x: seq<Json>, y: seq<Json>, k: nat, bound: nat,
      done: seq<Value>)
    requires forall i | 0 <= i < |x| :: Height(x[i]) < bound
    requires (forall i | 0 <= i < |x| :: Unique(cased, x[i]) && Addressable(x[i]))
    requires (forall i | 0 <= i < |y| :: Unique(cased, y[i]))
    requires |done| == k && (x != [] ==> k + |x| <= 0x1_0000_0000_0000_0000)
    ensures RfcRun(cased, VArray(done + Meanings(cased, x)), EditItems(cased, x, y, k, bound))
         == Some(VArray(done + Meanings(cased, y)))
    ensures Nestable(EditItems(cased, x, y, k, bound))
    decreases bound, 0, |x| + |y|
  {
    hide Meaning, Edits, Digits, Unique, Addressable, Height, Rfc6902, Meanings, RfcRun, Under;
    var a := done + Meanings(cased, x);
    if x == [] && y == [] {
      RunNone(cased, VArray(a));
    } else if y == [] {
      MeaningsCons(cased, x);
      var e := Edit(Kind.Remove, [Digits(k)], None);
      var rest := EditItems(cased, x[1..], y, k, bound);
      RemoveItem(cased, done, Meaning(cased, x[0]), Meanings(cased, x[1..]));
      RunOne(cased, VArray(a), e, rest);
      ItemsReach(cased, x[1..], y, k, bound, done);
    } else if x == [] {
      MeaningsCons(cased, y);
      var e := Edit(Add, [DASH], Some(y[0]));
      var rest := EditItems(cased, x, y[1..], k + 1, bound);
      var w := Meaning(cased, y[0]);
      AddItem(cased, done, y[0]);
      assert a == done && done + [w] + Meanings(cased, x) == done + [w];
      assert done + [w] + Meanings(cased, y[1..]) == done + Meanings(cased, y);
      RunOne(cased, VArray(a), e, rest);
      ItemsReach(cased, x, y[1..], k + 1, bound, done + [w]);
    } else {
      MeaningsCons(cased, x);
      MeaningsCons(cased, y);
      var first, rest := Edits(cased, x[0], y[0]), EditItems(cased, x[1..], y[1..], k + 1, bound);
      var w := Meaning(cased, y[0]);
      EditsReach(cased, x[0], y[0]);
      assert a[k] == Meaning(cased, x[0]);
      UnderArray(cased, a, k, first);
      assert a[k := w] == done + [w] + Meanings(cased, x[1..]);
      assert done + [w] + Meanings(cased, y[1..]) == done + Meanings(cased, y);
      RunConcat(cased, VArray(a), Under(Digits(k), first), rest);
      ItemsReach(cased, x[1..], y[1..], k + 1, bound, done + [w]);
      UnderNestable(Digits(k), first);
    }
  }

  lemma RunNone(cased: bool, v: Value)
    ensures RfcRun(cased, v, []) == Some(v)
  {
  }

  lemma UnderNestable(token: Str, edits: seq<Edit>)
    ensures Nestable(Under(token, edits))
  {
  }

  lemma RemoveItem(cased: bool, done: seq<Value>, v: Value, rest: seq<Value>)
    requires |done| < 0x1_0000_0000_0000_0000
    ensures Rfc6902(cased, VArray(done + ([v] + rest)), Kind.Remove, [Digits(|done|)], VNull)
      == Some(VArray(done + rest))
  {
    DigitsIndex(|done|);
    var a := done + ([v] + rest);
    assert Without(a, |done|) == done + rest;
  }

  lemma AddItem(cased: bool, done: seq<Value>, item: Json)
    ensures Rfc6902(cased, VArray(done), Add, [DASH], ValueOf(cased, Some(item)))
         == Some(VArray(done + [Meaning(cased, item)]))
  {
    hide Meaning;
  }

  lemma {:induction false} ObjectsReach(cased: bool, x: seq<Member>, y: seq<Member>)
    requires Unique(cased, Object(x)) && Unique(cased, Object(y))
    requires Addressable(Object(x))
    ensures var before, after := Object(x), Object(y);
      && RfcRun(cased, Meaning(cased, before), Edits(cased, before, after)) == Some(Meaning(cased, after))
      && Nestable(Edits(cased, before, after))
    decreases Height(Object(x)), 1, 0
  {
    var m, n := MeaningOf(cased, x), MeaningOf(cased, y);
    var sx, sy := SortMembers(cased, x), SortMembers(cased, y);
    ObjectMeaning(cased, x);
    ObjectMeaning(cased, y);
    EditsOfObjects(cased, x, y);
    hide EditMembers, Edits, SortMembers, MeaningOf, Meaning, RfcRun, Nestable, Height;
    SortedSide(cased, x);
    SortedSide(cased, y);
    hide Unique, Addressable, Side;
    AddressableSorted(x, sx);
    MembersReach(cased, sx, sy, Height(Object(x)), map[]);
    assert map[] + m == m && map[] + n == n;
  }

  lemma ObjectMeaning(cased: bool, x: seq<Member>)
    ensures Meaning(cased, Object(x)) == VObject(MeaningOf(cased, x))
  {
  }

  lemma EditsOfObjects(cased: bool, x: seq<Member>, y: seq<Member>)
    ensures Edits(cased, Object(x), Object(y))
         == EditMembers(cased, SortMembers(cased, x), SortMembers(cased, y), Height(Object(x)))
  {
    hide SortMembers, EditMembers, Height;
  }

  lemma SortedSide(cased: bool, x: seq<Member>)
    requires Unique(cased, Object(x))
    ensures var s := SortMembers(cased, x);
      multiset(s) == multiset(x) && Side(cased, s) && MeaningOf(cased, s) == MeaningOf(cased, x)
  {
    hide SortMembers, MeaningOf, Increasing, Fold;
    SortedMembers(cased, x);
  }

  lemma AddressableSorted(x: seq<Member>, s: seq<Member>)
    requires multiset(s) == multiset(x) && Addressable(Object(x))
    ensures forall i | 0 <= i < |s| :: Addressable(s[i].value)
  {
    forall i | 0 <= i < |s| ensures Addressable(s[i].value) {
      assert s[i] in multiset(x);
      var j :| 0 <= j < |x| && x[j] == s[i];
    }
  }

  ghost predicate Apart(d: map<Str, Value>, m: map<Str, Value>) {
    forall f | f in d :: f !in m
  }

  lemma JoinShared(d: map<Str, Value>, m: map<Str, Value>, n: map<Str, Value>, f: Str, v: Value, w: Value)
    requires f !in d && f !in m && f !in n && Apart(d, m[f := v]) && Apart(d, n[f := w])
    ensures f in d + m[f := v] && (d + m[f := v])[f] == v
    ensures (d + m[f := v])[f := w] == d[f := w] + m && d[f := w] + n == d + n[f := w]
    ensures Apart(d[f := w], m) && Apart(d[f := w], n)
  {
  }

  lemma JoinRemoved(d: map<Str, Value>, m: map<Str, Value>, f: Str, v: Value)
    requires f !in d && f !in m && Apart(d, m[f := v])
    ensures f in d + m[f := v] && (d + m[f := v]) - {f} == d + m && Apart(d, m)
  {
  }

  lemma JoinAdded(d: map<Str, Value>, m: map<Str, Value>, n: map<Str, Value>, f: Str, w: Value)
    requires f !in d && f !in m && f !in n && Apart(d, m) && Apart(d, n[f := w])
    ensures (d + m)[f := w] == d[f := w] + m && d[f := w] + n == d + n[f := w]
    ensures Apart(d[f := w], m) && Apart(d[f := w], n)
  {
  }

  lemma TargetRemoved(cased: bool, m: map<Str, Value>, key: Str, value: Value)
    requires Fold(cased, key) in m
    ensures Rfc6902(cased, VObject(m), Kind.Remove, [key], value) == Some(VObject(m - {Fold(cased, key)}))
  {
  }

  lemma TargetAdded(cased: bool, m: map<Str, Value>, key: Str, value: Value)
    ensures Rfc6902(cased, VObject(m), Add, [key], value) == Some(VObject(m[Fold(cased, key) := value]))
  {
  }

  /** A side of the walk from one member on. */
  ghost predicate Side(cased: bool, x: seq<Member>) {
    Increasing(cased, x) && UniqueValues(cased, x)
  }

  lemma SideTail(cased: bool, x: seq<Member>)
    requires Side(cased, x) && x != []
    ensures Side(cased, x[1..]) && Unique(cased, x[0].value)
    ensures var f := Fold(cased, x[0].key); var rest := MeaningOf(cased, x[1..]);
      f !in rest && MeaningOf(cased, x) == rest[f := Meaning(cased, x[0].value)]
  {
    hide Order, Unique, Meaning, MeaningOf, Fold;
    HeadOfMap(cased, x);
  }

  lemma SideLacks(cased: bool, key: Str, y: seq<Member>)
    requires Side(cased, y) && (y != [] ==> Order(cased, key, y[0].key) < 0)
    ensures Fold(cased, key) !in MeaningOf(cased, y)
  {
    hide MeaningOf, Order, Fold, Meaning, Unique;
    if y != [] {
      KeyBelow(cased, key, y);
    } else {
      assert MeaningOf(cased, y) == map[] by {
        NoMembers(cased, y);
      }
    }
  }

  lemma NoMembers(cased: bool, y: seq<Member>)
    requires y == []
    ensures MeaningOf(cased, y) == map[]
  {
  }

  lemma {:induction false} MembersReach(cased: bool, x: seq<Member>, y: seq<Member>, bound: nat,
      done: map<Str, Value>)
    requires forall i | 0 <= i < |x| :: Height(x[i].value) < bound && Addressable(x[i].value)
    requires Side(cased, x) && Side(cased, y)
    requires Apart(done, MeaningOf(cased, x))
    requires Apart(done, MeaningOf(cased, y))
    ensures RfcRun(cased, VObject(done + MeaningOf(cased, x)), EditMembers(cased, x, y, bound))
         == Some(VObject(done + MeaningOf(cased, y)))
    ensures Nestable(EditMembers(cased, x, y, bound))
    decreases bound, 0, |x| + |y|
  {
    hide Meaning, MeaningOf, Edits, Unique, Addressable, Height, Rfc6902, RfcRun, Under, Side, Apart, Order, Fold;
    var m, n := MeaningOf(cased, x), MeaningOf(cased, y);
    if x == [] && y == [] {
      RunNone(cased, VObject(done + m));
    } else if x == [] || (y != [] && Order(cased, x[0].key, y[0].key) > 0) {
      SideTail(cased, y);
      if x != [] {
        OrderTotal(cased, x[0].key, y[0].key);
      }
      SideLacks(cased, y[0].key, x);
      var e, rest := Edit(Add, [y[0].key], Some(y[0].value)), EditMembers(cased, x, y[1..], bound);
      var f, w := Fold(cased, y[0].key), Meaning(cased, y[0].value);
      NotDone(done, n, f);
      JoinAdded(done, m, MeaningOf(cased, y[1..]), f, w);
      TargetAdded(cased, done + m, y[0].key, w);
      RunOne(cased, VObject(done + m), e, rest);
      MembersReach(cased, x, y[1..], bound, done[f := w]);
    } else if y == [] || Order(cased, x[0].key, y[0].key) < 0 {
      SideTail(cased, x);
      SideLacks(cased, x[0].key, y);
      var e, rest := Edit(Kind.Remove, [x[0].key], None), EditMembers(cased, x[1..], y, bound);
      var f := Fold(cased, x[0].key);
      NotDone(done, m, f);
      JoinRemoved(done, MeaningOf(cased, x[1..]), f, Meaning(cased, x[0].value));
      TargetRemoved(cased, done + m, x[0].key, VNull);
      RunOne(cased, VObject(done + m), e, rest);
      MembersReach(cased, x[1..], y, bound, done);
    } else {
      SideTail(cased, x);
      SideTail(cased, y);
      OrderTotal(cased, x[0].key, y[0].key);
      var first, rest := Edits(cased, x[0].value, y[0].value), EditMembers(cased, x[1..], y[1..], bound);
      var f, v, w := Fold(cased, x[0].key), Meaning(cased, x[0].value), Meaning(cased, y[0].value);
      NotDone(done, m, f);
      EditsReach(cased, x[0].value, y[0].value);
      JoinShared(done, MeaningOf(cased, x[1..]), MeaningOf(cased, y[1..]), f, v, w);
      UnderObject(cased, done + m, x[0].key, first);
      RunConcat(cased, VObject(done + m), Under(x[0].key, first), rest);
      MembersReach(cased, x[1..], y[1..], bound, done[f := w]);
      UnderNestable(x[0].key, first);
    }
  }

  lemma NotDone(d: map<Str, Value>, m: map<Str, Value>, f: Str)
    requires Apart(d, m) && f in m
    ensures f !in d
  {
  }

  // ----- the patches as JSON -----

  function KindName(kind: Kind): Str {
    match kind
    case Add => ADD
    case Remove => REMOVE
    case Replace => REPLACE
  }

  /** The object `compose_patch` builds. */
  function Composed(path: Str, e: Edit): Json {
    Object([Member(OP, String(KindName(e.kind))), Member(PATH, String(path + Path(e.tokens)))] + ValueMember(e.value))
  }

  /** The value is duplicated; adding NULL to an object adds nothing. */
  function ValueMember(value: Option<Json>): seq<Member> {
    if value.None? then []
    else
      var copy := Duplicate(value.value);
      if copy.None? then [] else [Member(VALUE, copy.value)]
  }

  function ComposedAll(path: Str, edits: seq<Edit>): (r: seq<Json>)
    ensures |r| == |edits|
  {
    seq(|edits|, i requires 0 <= i < |edits| => Composed(path, edits[i]))
  }

  /** `compose_patch`. */
  method ComposePatch(patches: seq<Json>, kind: Kind, path: Str, suffix: Option<Str>,
      value: Option<Json>) returns (r: seq<Json>)
    ensures r == patches + [Composed(path, Edit(kind, if suffix.None? then [] else [suffix.value], value))]
  {
    var patch := [Member(OP, String(KindName(kind)))];
    if suffix.None? {
      patch := patch + [Member(PATH, String(path))];
      assert path + Path([]) == path;
    } else {
      patch := patch + [Member(PATH, String(path + [SLASH] + Encode(suffix.value)))];
      assert [suffix.value][1..] == [];
      assert path + Path([suffix.value]) == path + [SLASH] + Encode(suffix.value);
    }
    if value.Some? {
      patch := patch + ValueMember(value);
    }
    assert patch == [Member(OP, String(KindName(kind))), Member(PATH, patch[1].value)] + ValueMember(value);
    r := patches + [Object(patch)];
  }

  lemma ComposedUnder(path: Str, token: Str, edits: seq<Edit>)
    ensures ComposedAll(path, Under(token, edits)) == ComposedAll(path + [SLASH] + Encode(token), edits)
  {
    hide Encode;
    var a, b := ComposedAll(path, Under(token, edits)), ComposedAll(path + [SLASH] + Encode(token), edits);
    forall i | 0 <= i < |edits| ensures a[i] == b[i] {
      ComposedOneUnder(path, token, edits[i]);
    }
  }

  lemma ComposedOneUnder(path: Str, token: Str, e: Edit)
    ensures Composed(path, Edit(e.kind, [token] + e.tokens, e.value)) == Composed(path + [SLASH] + Encode(token), e)
  {
    hide Encode;
    assert ([token] + e.tokens)[1..] == e.tokens;
    assert path + ([SLASH] + Encode(token) + Path(e.tokens)) == path + [SLASH] + Encode(token) + Path(e.tokens);
  }

  lemma ComposedConcat(path: Str, a: seq<Edit>, b: seq<Edit>)
    ensures ComposedAll(path, a + b) == ComposedAll(path, a) + ComposedAll(path, b)
  {
    hide Composed;
  }

  /** `create_patches`: appends the patches for everything below a path. */
  method CreatePatches(cased: bool, patches: seq<Json>, path: Str, before: Json,
      after: Json) returns (r: seq<Json>)
    ensures r == patches + ComposedAll(path, Edits(cased, before, after))
    decreases Height(before), 1
  {
    assert before.Array? ==> forall i | 0 <= i < |before.items| :: Height(before.items[i]) < Height(before);
    hide SortMembers, EditItems, EditMembers, Composed, Height;
    if before.Array? && after.Array? {
      r := CreateForItems(cased, patches, path, before.items, after.items, Height(before));
    } else if before.Object? && after.Object? {
      EditsOfObjects(cased, before.members, after.members);
      var x, y := SortMembers(cased, before.members), SortMembers(cased, after.members);
      r := CreateForMembers(cased, patches, path, x, y, Height(before));
    } else if before == after {
      r := patches;
      assert ComposedAll(path, []) == [] && patches + [] == patches;
    } else {
      r := ComposePatch(patches, Replace, path, None, Some(after));
      assert ComposedAll(path, Replacing(after)) == [Composed(path, Replacing(after)[0])];
    }
  }

  /** Its array case: common elements, then leftovers to remove, then elements to add. */
  method CreateForItems(cased: bool, patches: seq<Json>, path: Str, x: seq<Json>, y: seq<Json>,
      ghost bound: nat) returns (r: seq<Json>)
    requires forall i | 0 <= i < |x| :: Height(x[i]) < bound
    ensures r == patches + ComposedAll(path, EditItems(cased, x, y, 0, bound))
    decreases bound, 0
  {
    r := patches;
    var index := 0;
    ghost var all := patches + ComposedAll(path, EditItems(cased, x, y, 0, bound));
    hide *;
    assert x[0..] == x && y[0..] == y;
    while index < |x| && index < |y|
      invariant index <= |x| && index <= |y|
      invariant all == r + ComposedAll(path, EditItems(cased, x[index..], y[index..], index, bound))
    {
      ItemStep(cased, r, path, x, y, index, bound);
      r := CreatePatches(cased, r, path + [SLASH] + Digits(index), x[index], y[index]);
      index := index + 1;
    }
    r := CreateForLeftovers(cased, r, path, x[index..], y[index..], index, bound);
  }

  /** Its loops over the elements only one side has; those to remove are all at the same index. */
  method CreateForLeftovers(cased: bool, patches: seq<Json>, path: Str, x: seq<Json>, y: seq<Json>,
      index: nat, ghost bound: nat)
    returns (r: seq<Json>)
    requires x == [] || y == []
    requires forall i | 0 <= i < |x| :: Height(x[i]) < bound
    ensures r == patches + ComposedAll(path, EditItems(cased, x, y, index, bound))
  {
    r := patches;
    ghost var all := patches + ComposedAll(path, EditItems(cased, x, y, index, bound));
    hide Height, Edits, EditItems, ComposedAll, Composed, Digits, Encode;
    assert x[0..] == x && y[0..] == y;
    var i := 0;
    while i < |x|
      invariant i <= |x|
      invariant all == r + ComposedAll(path, EditItems(cased, x[i..], y, index, bound))
    {
      LeftoverStep(cased, r, path, x, i, y, index, bound);
      r := ComposePatch(r, Kind.Remove, path, Some(Digits(index)), None);
      i := i + 1;
    }
    var j := 0;
    while j < |y|
      invariant j <= |y|
      invariant all == r + ComposedAll(path, EditItems(cased, x[i..], y[j..], index + j, bound))
    {
      AdditionStep(cased, r, path, x[i..], y, j, index + j, bound);
      r := ComposePatch(r, Add, path, Some(DASH), Some(y[j]));
      j := j + 1;
    }
    ItemsEnd(cased, path, x[i..], y[j..], index + j, bound);
    assert r + [] == r;
  }

  lemma ItemsEnd(cased: bool, path: Str, x: seq<Json>, y: seq<Json>, k: nat, bound: nat)
    requires x == [] && y == []
    ensures ComposedAll(path, EditItems(cased, x, y, k, bound)) == []
  {
  }

  lemma ItemStep(cased: bool, r: seq<Json>, path: Str, x: seq<Json>, y: seq<Json>, k: nat,
      bound: nat)
    requires k < |x| && k < |y| && forall i | 0 <= i < |x| :: Height(x[i]) < bound
    ensures r + ComposedAll(path, EditItems(cased, x[k..], y[k..], k, bound))
         == r + ComposedAll(path + [SLASH] + Digits(k), Edits(cased, x[k], y[k]))
              + ComposedAll(path, EditItems(cased, x[k + 1..], y[k + 1..], k + 1, bound))
  {
    EncodeLaws(Digits(k));
    NoSlashInDigits(k);
    hide Height, Edits, ComposedAll, Composed, Digits, Under, Encode;
    var a, b := x[k..], y[k..];
    assert a[0] == x[k] && a[1..] == x[k + 1..] && b[0] == y[k] && b[1..] == y[k + 1..];
    var first, rest := Edits(cased, x[k], y[k]), EditItems(cased, a[1..], b[1..], k + 1, bound);
    assert EditItems(cased, a, b, k, bound) == Under(Digits(k), first) + rest;
    ComposedConcat(path, Under(Digits(k), first), rest);
    ComposedUnder(path, Digits(k), first);
  }

  lemma ComposedHead(path: Str, e: Edit, rest: seq<Edit>)
    ensures ComposedAll(path, [e] + rest) == [Composed(path, e)] + ComposedAll(path, rest)
  {
    hide Composed;
    ComposedConcat(path, [e], rest);
    assert ComposedAll(path, [e]) == [Composed(path, e)];
  }

  lemma LeftoverStep(cased: bool, r: seq<Json>, path: Str, x: seq<Json>, i: nat, y: seq<Json>,
      k: nat, bound: nat)
    requires i < |x| && y == [] && forall j | 0 <= j < |x| :: Height(x[j]) < bound
    ensures r + ComposedAll(path, EditItems(cased, x[i..], y, k, bound))
         == r + [Composed(path, Edit(Kind.Remove, [Digits(k)], None))]
             + ComposedAll(path, EditItems(cased, x[i + 1..], y, k, bound))
  {
    hide Height, Edits, ComposedAll, Composed, Digits, Under;
    assert x[i..][1..] == x[i + 1..];
    ComposedHead(path, Edit(Kind.Remove, [Digits(k)], None), EditItems(cased, x[i + 1..], y, k, bound));
  }

  lemma AdditionStep(cased: bool, r: seq<Json>, path: Str, x: seq<Json>, y: seq<Json>, j: nat,
      k: nat, bound: nat)
    requires x == [] && j < |y|
    ensures r + ComposedAll(path, EditItems(cased, x, y[j..], k, bound))
         == r + [Composed(path, Edit(Add, [DASH], Some(y[j])))]
             + ComposedAll(path, EditItems(cased, x, y[j + 1..], k + 1, bound))
  {
    hide Height, Edits, ComposedAll, Composed, Digits, Under;
    assert y[j..][0] == y[j] && y[j..][1..] == y[j + 1..];
    ComposedHead(path, Edit(Add, [DASH], Some(y[j])), EditItems(cased, x, y[j + 1..], k + 1, bound));
  }

  /** Its object case: both sorted member lists walked side by side. */
  method CreateForMembers(cased: bool, patches: seq<Json>, path: Str, x: seq<Member>,
      y: seq<Member>, ghost bound: nat)
    returns (r: seq<Json>)
    requires forall i | 0 <= i < |x| :: Height(x[i].value) < bound
    ensures r == patches + ComposedAll(path, EditMembers(cased, x, y, bound))
    decreases bound, 0
  {
    r := patches;
    var i, j := 0, 0;
    ghost var all := patches + ComposedAll(path, EditMembers(cased, x, y, bound));
    hide Height, Edits, EditMembers, ComposedAll, Composed, Order, Encode;
    assert x[0..] == x && y[0..] == y;
    while i < |x| || j < |y|
      invariant i <= |x| && j <= |y|
      invariant all == r + ComposedAll(path, EditMembers(cased, x[i..], y[j..], bound))
      decreases |x| - i + |y| - j
    {
      MemberStep(cased, r, path, x, y, i, j, bound);
      var diff := if i == |x| then 1 else if j == |y| then -1 else Order(cased, x[i].key, y[j].key);
      if diff == 0 {
        r := CreatePatches(cased, r, path + [SLASH] + Encode(x[i].key), x[i].value, y[j].value);
        i, j := i + 1, j + 1;
      } else if diff < 0 {
        r := ComposePatch(r, Kind.Remove, path, Some(x[i].key), None);
        i := i + 1;
      } else {
        r := ComposePatch(r, Add, path, Some(y[j].key), Some(y[j].value));
        j := j + 1;
      }
    }
    MembersEnd(cased, path, x[i..], y[j..], bound);
    assert r + [] == r;
  }

  lemma MembersEnd(cased: bool, path: Str, x: seq<Member>, y: seq<Member>, bound: nat)
    requires x == [] && y == []
    ensures ComposedAll(path, EditMembers(cased, x, y, bound)) == []
  {
  }

  lemma MemberStep(cased: bool, r: seq<Json>, path: Str, x: seq<Member>, y: seq<Member>, i: nat,
      j: nat, bound: nat)
    requires i <= |x| && j <= |y| && (i < |x| || j < |y|)
    requires forall k | 0 <= k < |x| :: Height(x[k].value) < bound
    ensures var diff := if i == |x| then 1 else if j == |y| then -1 else Order(cased, x[i].key, y[j].key);
      var all := r + ComposedAll(path, EditMembers(cased, x[i..], y[j..], bound));
      && (diff == 0 ==> all == r + ComposedAll(path + [SLASH] + Encode(x[i].key), Edits(cased, x[i].value, y[j].value))
                               + ComposedAll(path, EditMembers(cased, x[i + 1..], y[j + 1..], bound)))
      && (diff < 0 ==> all == r + [Composed(path, Edit(Kind.Remove, [x[i].key], None))]
                              + ComposedAll(path, EditMembers(cased, x[i + 1..], y[j..], bound)))
      && (diff > 0 ==> all == r + [Composed(path, Edit(Add, [y[j].key], Some(y[j].value)))]
                              + ComposedAll(path, EditMembers(cased, x[i..], y[j + 1..], bound)))
  {
    hide Height, Edits, ComposedAll, Composed, Under, Order, Encode;
    var a, b := x[i..], y[j..];
    assert i < |x| ==> a[0] == x[i] && a[1..] == x[i + 1..];
    assert j < |y| ==> b[0] == y[j] && b[1..] == y[j + 1..];
    var diff := if i == |x| then 1 else if j == |y| then -1 else Order(cased, x[i].key, y[j].key);
    if diff == 0 {
      var first, rest := Edits(cased, x[i].value, y[j].value), EditMembers(cased, a[1..], b[1..], bound);
      ComposedConcat(path, Under(x[i].key, first), rest);
      ComposedUnder(path, x[i].key, first);
    } else if diff < 0 {
      ComposedHead(path, Edit(Kind.Remove, [x[i].key], None), EditMembers(cased, a[1..], b, bound));
    } else {
      ComposedHead(path, Edit(Add, [y[j].key], Some(y[j].value)), EditMembers(cased, a, b[1..], bound));
    }
  }

  // ----- applying what was generated -----

  /** What every generated edit is, so that it can be applied. */
  ghost predicate Applicable(cased: bool, keys: iset<Str>, e: Edit) {
    && (e.tokens == [] ==> e.kind == Replace)
    && (e.kind == Kind.Remove <==> e.value.None?)
    && (e.value.Some? ==> Good(cased, keys, e.value.value) && Height(e.value.value) <= CIRCULAR_LIMIT)
    && forall i | 0 <= i < |e.tokens| :: e.tokens[i] in keys
  }

  ghost predicate AllApplicable(cased: bool, keys: iset<Str>, edits: seq<Edit>) {
    forall i | 0 <= i < |edits| :: Applicable(cased, keys, edits[i])
  }

  /** The three items of a patch object are found by their names. */
  lemma ItemsFound(cased: bool, operation: Json, path: Json, value: Option<Json>)
    ensures var tail := if value.None? then [] else [Member(VALUE, value.value)];
      var patch := Object([Member(OP, operation), Member(PATH, path)] + tail);
      && ItemOf(cased, patch, OP) == Some(operation) && ItemOf(cased, patch, PATH) == Some(path)
      && ItemOf(cased, patch, VALUE) == value
  {
    var a, b := Member(OP, operation), Member(PATH, path);
    var tail := if value.None? then [] else [Member(VALUE, value.value)];
    var members := [a, b] + tail;
    assert |Fold(cased, OP)| == 2 && |Fold(cased, PATH)| == 4 && |Fold(cased, VALUE)| == 5;
    hide Fold;
    assert members[1..] == [b] + tail && ([b] + tail)[1..] == tail;
    assert Find(cased, tail, VALUE) == 0;
    assert Find(cased, [b] + tail, VALUE) == 1;
    assert Find(cased, [b] + tail, PATH) == 0;
  }

  lemma KindNamed(kind: Kind)
    ensures KindOf(Some(String(KindName(kind)))) == Some(kind) && KindName(kind) !in OTHERS
  {
    assert |ADD| == 3 && |REMOVE| == 6 && |REPLACE| == 7;
    assert forall s | s in OTHERS :: |s| == 4;
  }

  /** A composed patch is applied as the edit it was composed of. */
  lemma ComposedApplies(cased: bool, keys: iset<Str>, v: Json, e: Edit)
    requires Applicable(cased, keys, e)
    ensures var patch := Composed([], e);
      && Modelled(cased, patch)
      && (e.kind == Kind.Remove ==> Path(e.tokens) != [])
      && ApplyPatch(cased, v, patch) == ApplyEdit(cased, v, e.kind, Path(e.tokens), e.value)
  {
    if e.value.Some? {
      DuplicateExact(e.value.value, 0);
    }
    if e.tokens != [] {
      PathOfTokens(e.tokens);
    }
    assert [] + Path(e.tokens) == Path(e.tokens);
    KindNamed(e.kind);
    ItemsFound(cased, String(KindName(e.kind)), String(Path(e.tokens)), e.value);
    hide Path, Good, DuplicateAt, Height, ItemOf, KindOf, KindName, ApplyEdit;
    assert ValueMember(e.value) == if e.value.None? then [] else [Member(VALUE, e.value.value)];
  }

  lemma ValueIgnored(cased: bool, v: Json, path: Str, value: Option<Json>)
    requires path != []
    ensures ApplyEdit(cased, v, Kind.Remove, path, value) == ApplyEdit(cased, v, Kind.Remove, path, Some(Null))
  {
  }

  /** Applying one composed patch is one operation of RFC 6902. */
  lemma ApplyOne(cased: bool, keys: iset<Str>, v: Json, e: Edit)
    requires Good(cased, keys, v) && Suitable(cased, keys)
    requires Applicable(cased, keys, e)
    requires Rfc6902(cased, Meaning(cased, v), e.kind, e.tokens, ValueOf(cased, e.value)).Some?
    ensures Modelled(cased, Composed([], e))
    ensures var a := ApplyPatch(cased, v, Composed([], e));
      && a.status == 0 && Good(cased, keys, a.tree)
      && Some(Meaning(cased, a.tree)) == Rfc6902(cased, Meaning(cased, v), e.kind, e.tokens, ValueOf(cased, e.value))
  {
    hide Good, Meaning, ApplyEdit, Rfc6902, Path, Composed, ApplyPatch, Modelled, Suitable, Fitting, Height;
    ComposedApplies(cased, keys, v, e);
    var w := ValueOf(cased, e.value);
    var value := if e.value.Some? then e.value.value else Null;
    ValueOfNull(cased, keys);
    if e.tokens != [] {
      AcceptedFits(cased, Meaning(cased, v), e.kind, e.tokens, w);
    } else {
      NothingFits(cased, Meaning(cased, v));
    }
    ApplyIsRfc6902(cased, keys, v, e.kind, e.tokens, value);
    if e.kind == Kind.Remove {
      ValueIgnored(cased, v, Path(e.tokens), e.value);
    }
  }

  lemma ValueOfNull(cased: bool, keys: iset<Str>)
    ensures Meaning(cased, Null) == VNull && Height(Null) == 0
    ensures Good(cased, keys, Null)
  {
  }

  lemma NothingFits(cased: bool, v: Value)
    ensures Fitting(cased, v, [])
  {
  }

  /** Applying composed patches in order is the run of their operations. */
  lemma {:induction false} ApplyRun(cased: bool, keys: iset<Str>, v: Json, edits: seq<Edit>)
    requires Good(cased, keys, v) && Suitable(cased, keys)
    requires AllApplicable(cased, keys, edits)
    requires RfcRun(cased, Meaning(cased, v), edits).Some?
    ensures forall i | 0 <= i < |edits| :: Modelled(cased, ComposedAll([], edits)[i])
    ensures var a := ApplyInOrder(cased, v, ComposedAll([], edits));
      && a.status == 0 && Good(cased, keys, a.tree)
      && Some(Meaning(cased, a.tree)) == RfcRun(cased, Meaning(cased, v), edits)
    decreases |edits|
  {
    hide Good, Meaning, ApplyPatch, Rfc6902, Composed, Modelled, Suitable, Applicable, ValueOf;
    if edits != [] {
      var all, rest := ComposedAll([], edits), ComposedAll([], edits[1..]);
      assert Applicable(cased, keys, edits[0]);
      ApplyOne(cased, keys, v, edits[0]);
      var first := ApplyPatch(cased, v, Composed([], edits[0])).tree;
      ApplyRun(cased, keys, first, edits[1..]);
      assert all[0] == Composed([], edits[0]) && all[1..] == rest;
      forall i | 0 <= i < |edits| ensures Modelled(cased, all[i]) {
        if i > 0 {
          assert all[i] == rest[i - 1];
        }
      }
    }
  }

  // ----- the edits can be applied -----

  /** Tokens without letters, escapes or slashes: array indices and the dash. */
  predicate Neutral(t: Str) {
    forall i | 0 <= i < |t| :: IsDigit(t[i]) || t[i] == 45
  }

  /** The keys together with the tokens that arrays need. */
  ghost function WithNeutral(keys: iset<Str>): iset<Str> {
    iset t: Str | t in keys || Neutral(t)
  }

  lemma NeutralSuits(cased: bool, keys: iset<Str>)
    requires Suitable(cased, keys)
    ensures Suitable(cased, WithNeutral(keys))
  {
    var all := WithNeutral(keys);
    forall a, b | a in all && b in all && cased && Fold(false, a) == Fold(false, b) ensures a == b {
      if Neutral(a) {
        NeutralAlone(a, b);
      } else if Neutral(b) {
        NeutralAlone(b, a);
      }
    }
    forall t | Neutral(t) ensures NulFree(t) && Decodes(t) {
      EncodeLaws(t);
      PlainStays(t);
    }
  }

  lemma NeutralAlone(a: Str, b: Str)
    requires Neutral(a) && Fold(false, a) == Fold(false, b)
    ensures a == b
  {
    var f, g := Fold(false, a), Fold(false, b);
    forall i | 0 <= i < |a| ensures a[i] == b[i] {
      assert f[i] == Lower(a[i]) && g[i] == Lower(b[i]);
    }
  }

  lemma {:induction false} MoreKeys(keys: iset<Str>, v: Json)
    requires KeysIn(keys, v)
    ensures KeysIn(WithNeutral(keys), v)
    decreases v
  {
    match v
    case Array(items) =>
      forall i | 0 <= i < |items| ensures KeysIn(WithNeutral(keys), items[i]) {
        MoreKeys(keys, items[i]);
      }
    case Object(members) =>
      forall i | 0 <= i < |members|
        ensures members[i].key in WithNeutral(keys) && KeysIn(WithNeutral(keys), members[i].value)
      {
        MoreKeys(keys, members[i].value);
      }
    case _ =>
  }

  /** The two values to be compared, good for generating patches. */
  ghost predicate Usable(cased: bool, keys: iset<Str>, v: Json) {
    Good(cased, keys, v) && Height(v) <= CIRCULAR_LIMIT
  }

  lemma {:induction false} EditsApplicable(cased: bool, keys: iset<Str>, before: Json, after: Json)
    requires KeysIn(keys, before) && Usable(cased, keys, after)
    requires forall t | Neutral(t) :: t in keys
    ensures AllApplicable(cased, keys, Edits(cased, before, after))
    decreases Height(before), 1, 0
  {
    match (before, after)
    case (Array(x), Array(y)) =>
      hide KeysIn, Applicable;
      ItemsUsable(cased, keys, y);
      assert forall i | 0 <= i < |x| :: KeysIn(keys, x[i]) by {
        KeysOfItems(keys, x);
      }
      hide EditItems;
      ItemsApplicable(cased, keys, x, y, 0, Height(before));
    case (Object(x), Object(y)) =>
      hide Edits, SortMembers, EditMembers;
      EditsOfObjects(cased, x, y);
      MembersUsable(cased, keys, y);
      SortedKeys(cased, keys, x);
      SortedKeys(cased, keys, y);
      hide KeysIn, KeysOf, Usable, Good, AllApplicable;
      SortedUsable(cased, keys, y);
      MembersApplicable(cased, keys, SortMembers(cased, x), SortMembers(cased, y), Height(before));
    case _ =>
  }

  lemma KeysOfItems(keys: iset<Str>, x: seq<Json>)
    requires KeysIn(keys, Array(x))
    ensures forall i | 0 <= i < |x| :: KeysIn(keys, x[i])
  {
  }

  lemma ItemsUsable(cased: bool, keys: iset<Str>, y: seq<Json>)
    requires Usable(cased, keys, Array(y))
    ensures forall i | 0 <= i < |y| :: Usable(cased, keys, y[i])
  {
  }

  lemma MembersUsable(cased: bool, keys: iset<Str>, y: seq<Member>)
    requires Usable(cased, keys, Object(y))
    ensures forall i | 0 <= i < |y| :: Usable(cased, keys, y[i].value)
  {
    assert Height(Object(y)) == HeightOfMembers(y) && KeysOf(keys, y);
  }

  lemma SortedUsable(cased: bool, keys: iset<Str>, y: seq<Member>)
    requires forall i | 0 <= i < |y| :: Usable(cased, keys, y[i].value)
    ensures var s := SortMembers(cased, y); forall i | 0 <= i < |s| :: Usable(cased, keys, s[i].value)
  {
    hide Usable, Sort;
    SortPermutes(MemberKey, cased, y);
    var s := SortMembers(cased, y);
    forall i | 0 <= i < |s| ensures Usable(cased, keys, s[i].value) {
      assert s[i] in multiset(y);
      var j :| 0 <= j < |y| && y[j] == s[i];
    }
  }

  lemma UnderApplicable(cased: bool, keys: iset<Str>, token: Str, edits: seq<Edit>)
    requires AllApplicable(cased, keys, edits) && token in keys
    ensures AllApplicable(cased, keys, Under(token, edits))
  {
    hide Good, Height;
    var r := Under(token, edits);
    forall i | 0 <= i < |edits| ensures Applicable(cased, keys, r[i]) {
      assert Applicable(cased, keys, edits[i]);
      assert r[i].tokens == [token] + edits[i].tokens;
    }
  }

  lemma ApplicableConcat(cased: bool, keys: iset<Str>, a: seq<Edit>, b: seq<Edit>)
    requires AllApplicable(cased, keys, a) && AllApplicable(cased, keys, b)
    ensures AllApplicable(cased, keys, a + b)
  {
    hide Applicable;
  }

  lemma AddApplicable(cased: bool, keys: iset<Str>, token: Str, value: Json)
    requires token in keys && Usable(cased, keys, value)
    ensures AllApplicable(cased, keys, [Edit(Add, [token], Some(value))])
  {
    var e := Edit(Add, [token], Some(value));
    var edits := [e];
    assert Applicable(cased, keys, e);
    hide Applicable;
    assert forall i | 0 <= i < |edits| :: edits[i] == e;
  }

  lemma RemoveApplicable(cased: bool, keys: iset<Str>, token: Str)
    requires token in keys
    ensures AllApplicable(cased, keys, [Edit(Kind.Remove, [token], None)])
  {
  }

  lemma {:induction false} ItemsApplicable(cased: bool, keys: iset<Str>, x: seq<Json>,
      y: seq<Json>, k: nat, bound: nat)
    requires forall i | 0 <= i < |x| :: Height(x[i]) < bound && KeysIn(keys, x[i])
    requires forall i | 0 <= i < |y| :: Usable(cased, keys, y[i])
    requires forall t | Neutral(t) :: t in keys
    ensures AllApplicable(cased, keys, EditItems(cased, x, y, k, bound))
    decreases bound, 0, |x| + |y|
  {
    assert Neutral(Digits(k)) && Neutral(DASH);
    hide Edits, Digits, Height, KeysIn, Usable, Under, Applicable, AllApplicable, Neutral;
    if x == [] && y == [] {
      NoneApplicable(cased, keys);
    } else if y == [] {
      RemoveApplicable(cased, keys, Digits(k));
      ItemsApplicable(cased, keys, x[1..], y, k, bound);
      ApplicableConcat(cased, keys, [Edit(Kind.Remove, [Digits(k)], None)], EditItems(cased, x[1..], y, k, bound));
    } else if x == [] {
      AddApplicable(cased, keys, DASH, y[0]);
      ItemsApplicable(cased, keys, x, y[1..], k + 1, bound);
      ApplicableConcat(cased, keys, [Edit(Add, [DASH], Some(y[0]))], EditItems(cased, x, y[1..], k + 1, bound));
    } else {
      EditsApplicable(cased, keys, x[0], y[0]);
      var first := Edits(cased, x[0], y[0]);
      UnderApplicable(cased, keys, Digits(k), first);
      ItemsApplicable(cased, keys, x[1..], y[1..], k + 1, bound);
      ApplicableConcat(cased, keys, Under(Digits(k), first), EditItems(cased, x[1..], y[1..], k + 1, bound));
    }
  }

  lemma NoneApplicable(cased: bool, keys: iset<Str>)
    ensures AllApplicable(cased, keys, [])
  {
  }

  lemma {:induction false} MembersApplicable(cased: bool, keys: iset<Str>, x: seq<Member>,
      y: seq<Member>, bound: nat)
    requires forall i | 0 <= i < |x| :: Height(x[i].value) < bound
    requires KeysOf(keys, x) && KeysOf(keys, y)
    requires forall i | 0 <= i < |y| :: Usable(cased, keys, y[i].value)
    requires forall t | Neutral(t) :: t in keys
    ensures AllApplicable(cased, keys, EditMembers(cased, x, y, bound))
    decreases bound, 0, |x| + |y|
  {
    hide Edits, Height, KeysIn, Usable, Under, Applicable, AllApplicable, Order, Neutral;
    if x == [] && y == [] {
      NoneApplicable(cased, keys);
    } else if x == [] || (y != [] && Order(cased, x[0].key, y[0].key) > 0) {
      AddApplicable(cased, keys, y[0].key, y[0].value);
      MembersApplicable(cased, keys, x, y[1..], bound);
      ApplicableConcat(cased, keys, [Edit(Add, [y[0].key], Some(y[0].value))], EditMembers(cased, x, y[1..], bound));
    } else if y == [] || Order(cased, x[0].key, y[0].key) < 0 {
      RemoveApplicable(cased, keys, x[0].key);
      MembersApplicable(cased, keys, x[1..], y, bound);
      ApplicableConcat(cased, keys, [Edit(Kind.Remove, [x[0].key], None)], EditMembers(cased, x[1..], y, bound));
    } else {
      EditsApplicable(cased, keys, x[0].value, y[0].value);
      var first := Edits(cased, x[0].value, y[0].value);
      UnderApplicable(cased, keys, x[0].key, first);
      MembersApplicable(cased, keys, x[1..], y[1..], bound);
      ApplicableConcat(cased, keys, Under(x[0].key, first), EditMembers(cased, x[1..], y[1..], bound));
    }
  }

  /**
   The round trip: applying the generated patches in order to any equal tree, such as a duplicate,
   succeeds at every step and yields a tree that means the new value.
   */
  lemma PatchRoundTrip(cased: bool, keys: iset<Str>, before: Json, after: Json, start: Json)
    requires Suitable(cased, keys) && KeysIn(keys, before) && KeysIn(keys, after)
    requires KeysIn(keys, start)
    requires Unique(cased, before) && Unique(cased, after)
    requires Unique(cased, start)
    requires Meaning(cased, start) == Meaning(cased, before)
    requires Addressable(before) && Height(after) <= CIRCULAR_LIMIT
    ensures var patches := ComposedAll([], Edits(cased, before, after));
      && (forall i | 0 <= i < |patches| :: Modelled(cased, patches[i]))
      && var r := ApplyInOrder(cased, start, patches);
         r.status == 0 && Unique(cased, r.tree) && Meaning(cased, r.tree) == Meaning(cased, after)
  {
    var all := WithNeutral(keys);
    NeutralSuits(cased, keys);
    MoreKeys(keys, before);
    MoreKeys(keys, after);
    MoreKeys(keys, start);
    var edits := Edits(cased, before, after);
    hide Edits, Meaning, Unique, Addressable, Height, KeysIn, Suitable, ApplyInOrder, RfcRun, Modelled,
        AllApplicable, Neutral;
    assert forall t | Neutral(t) :: t in all;
    EditsApplicable(cased, all, before, after);
    EditsReach(cased, before, after);
    ApplyRun(cased, all, start, edits);
  }

  // ----- when every round trip succeeds -----

  /** What a round trip is asked of: equal trees `before` and `start`, and the tree `after`. */
  ghost predicate Triple(cased: bool, keys: iset<Str>, before: Json, after: Json, start: Json) {
    && KeysIn(keys, before) && KeysIn(keys, after) && KeysIn(keys, start)
    && Unique(cased, before) && Unique(cased, after) && Unique(cased, start)
    && Meaning(cased, start) == Meaning(cased, before)
    && Addressable(before) && Height(after) <= CIRCULAR_LIMIT
  }

  /** The generated patches turn `start` into a tree that means `after`. */
  ghost predicate Turns(cased: bool, before: Json, after: Json, start: Json) {
    var patches := ComposedAll([], Edits(cased, before, after));
    && (forall i | 0 <= i < |patches| :: Modelled(cased, patches[i]))
    && var r := ApplyInOrder(cased, start, patches);
       r.status == 0 && Unique(cased, r.tree) && Meaning(cased, r.tree) == Meaning(cased, after)
  }

  ghost predicate RoundTrips(cased: bool, keys: iset<Str>) {
    forall before, after, start | Triple(cased, keys, before, after, start) :: Turns(cased, before, after, start)
  }

  /**
   Over the trees with keys from a set every round trip succeeds exactly if every key is decoded in
   place to itself and, in the case-sensitive variant, no two keys match up to case.
   */
  lemma PatchRoundTripIff(cased: bool, keys: iset<Str>)
    requires CStrings(keys)
    ensures RoundTrips(cased, keys) <==> Suitable(cased, keys)
  {
    hide Edits, Meaning, Unique, Addressable, Height, KeysIn, ApplyInOrder, Modelled, Decodes, CaseDistinct;
    if Suitable(cased, keys) {
      forall before, after, start | Triple(cased, keys, before, after, start)
        ensures Turns(cased, before, after, start)
      {
        PatchRoundTrip(cased, keys, before, after, start);
      }
    } else if k :| k in keys && !Decodes(k) {
      EscapedKeyLost(cased, keys, k);
    } else {
      CaseClash(keys);
      var a, b :| a in keys && b in keys && Lex(a, b) < 0 && Fold(false, a) == Fold(false, b);
      WrongCaseRemoved(keys, a, b);
    }
  }

  lemma CaseClash(keys: iset<Str>)
    requires !CaseDistinct(keys)
    ensures exists a, b :: a in keys && b in keys && Lex(a, b) < 0 && Fold(false, a) == Fold(false, b)
  {
    var a, b :| a in keys && b in keys && Fold(false, a) == Fold(false, b) && a != b;
    LexTotal(a, b);
    assert Lex(a, b) < 0 || Lex(b, a) < 0;
  }

  lemma PathOfOne(key: Str)
    ensures Path([key]) == [SLASH] + Encode(key)
  {
    hide Encode;
    assert [key][1..] == [];
  }

  /** What the patch that removes one member does. */
  lemma RemovalApplied(cased: bool, v: Json, key: Str)
    ensures Path([key]) == [SLASH] + Encode(key)
    ensures var d := DetachPath(cased, v, [SLASH] + Encode(key));
      var a := if d.None? then Applied(13, v) else Applied(0, d.value);
      && ApplyEdit(cased, v, Kind.Remove, Path([key]), None) == a
      && Modelled(cased, Composed([], Edit(Kind.Remove, [key], None)))
      && ApplyPatch(cased, v, Composed([], Edit(Kind.Remove, [key], None))) == a
  {
    PathOfOne(key);
    hide DetachPath, Encode, Composed, ApplyPatch, Modelled, Path;
    ComposedApplies(cased, iset{key}, v, Edit(Kind.Remove, [key], None));
  }

  lemma OneRemoval(cased: bool, before: Json, after: Json, start: Json, key: Str)
    requires Edits(cased, before, after) == [Edit(Kind.Remove, [key], None)]
    ensures var d := DetachPath(cased, start, [SLASH] + Encode(key));
      Turns(cased, before, after, start)
      <==> d.Some? && Unique(cased, d.value) && Meaning(cased, d.value) == Meaning(cased, after)
  {
    hide Edits, Meaning, Unique, DetachPath, Encode, Composed, ApplyPatch, Modelled, Path;
    RemovalApplied(cased, start, key);
    var e := Edit(Kind.Remove, [key], None);
    var patches := ComposedAll([], [e]);
    assert patches == [Composed([], e)] && patches[1..] == [];
    var first := ApplyPatch(cased, start, patches[0]);
    assert ApplyInOrder(cased, first.tree, []) == Applied(0, first.tree);
    assert ApplyInOrder(cased, start, patches) == first;
  }

  lemma RemovalGenerated(cased: bool, a: Member, rest: seq<Member>)
    requires rest == [] || (|rest| == 1 && Order(cased, a.key, rest[0].key) < 0)
    requires rest == [] || rest[0].value.Number?
    ensures Edits(cased, Object([a] + rest), Object(rest)) == [Edit(Kind.Remove, [a.key], None)]
  {
    EditsOfObjects(cased, [a] + rest, rest);
    assert SortMembers(cased, [a] + rest) == [a] + rest && SortMembers(cased, rest) == rest;
    assert ([a] + rest)[1..] == rest;
    hide Edits, SortMembers, Height, Order;
    var bound := Height(Object([a] + rest));
    if rest == [] {
      assert EditMembers(cased, [], [], bound) == [];
    } else {
      OrderTotal(cased, rest[0].key, rest[0].key);
      assert rest[1..] == [];
      assert EditMembers(cased, rest, rest, bound) == [];
    }
  }

  lemma KeyNotFound(cased: bool, k: Str)
    requires NulFree(k) && !Decodes(k)
    ensures DetachPath(cased, Object([Member(k, Number(1))]), [SLASH] + Encode(k)) == None
  {
    var m := [Member(k, Number(1))];
    var child := InPlace(Encode(k));
    EncodeLaws(k);
    TargetPath(cased, Object(m), Encode(k));
    hide Encode, InPlace, DetachPath;
    if Fold(false, child) == Fold(false, k) {
      ChangedBeyondCase(k);
    }
    hide Fold;
    assert m[1..] == [] && Find(false, m, child) == 1;
  }

  /** Removing a key that decoding changes fails: {k:1} never becomes {}. */
  lemma EscapedKeyLost(cased: bool, keys: iset<Str>, k: Str)
    requires k in keys && NulFree(k) && !Decodes(k)
    ensures var v := Object([Member(k, Number(1))]);
      && ApplyEdit(cased, v, Kind.Remove, Path([k]), None) == Applied(13, v)
      && Triple(cased, keys, v, Object([]), v) && !Turns(cased, v, Object([]), v)
  {
    var a := Member(k, Number(1));
    var v := Object([a]);
    hide DetachPath, Path, Encode, Decodes, NulFree, Turns, Edits, ApplyEdit;
    KeyNotFound(cased, k);
    RemovalApplied(cased, v, k);
    assert [a] + [] == [a];
    RemovalGenerated(cased, a, []);
    OneRemoval(cased, v, Object([]), v, k);
    MemberUsable(cased, keys, a);
  }

  lemma MemberUsable(cased: bool, keys: iset<Str>, a: Member)
    requires a.key in keys && a.value.Number?
    ensures var v := Object([a]);
      KeysIn(keys, v) && Unique(cased, v) && Addressable(v) && Height(v) <= CIRCULAR_LIMIT
    ensures var v := Object([]);
      KeysIn(keys, v) && Unique(cased, v) && Addressable(v) && Height(v) <= CIRCULAR_LIMIT
  {
    assert [a][1..] == [] && Height(a.value) == 0;
    assert HeightOfMembers([]) == 0;
    assert HeightOfMembers([a]) == Height(Object([a])) <= 1;
  }

  lemma WrongCaseFound(x: Member, y: Member)
    requires Fold(false, x.key) == Fold(false, y.key) && NulFree(x.key) && Decodes(x.key)
    ensures DetachPath(true, Object([y, x]), [SLASH] + Encode(x.key)) == Some(Object([x]))
  {
    EncodeLaws(x.key);
    TargetPath(true, Object([y, x]), Encode(x.key));
    hide Encode, InPlace, DetachPath, Fold;
    assert Find(false, [y, x], x.key) == 0 && Without([y, x], 0) == [x];
  }

  /** Removing one of two keys that match up to case removes whichever stands first. */
  lemma WrongCaseRemoved(keys: iset<Str>, a: Str, b: Str)
    requires a in keys && b in keys && Lex(a, b) < 0
    requires Fold(false, a) == Fold(false, b) && NulFree(a) && Decodes(a)
    ensures var x, y := Member(a, Number(1)), Member(b, Number(2));
      && ApplyEdit(true, Object([y, x]), Kind.Remove, Path([a]), None) == Applied(0, Object([x]))
      && Triple(true, keys, Object([x, y]), Object([y]), Object([y, x]))
      && !Turns(true, Object([x, y]), Object([y]), Object([y, x]))
  {
    var x, y := Member(a, Number(1)), Member(b, Number(2));
    LexTotal(a, b);
    hide DetachPath, Path, Encode, Decodes, NulFree, Turns, Edits, ApplyEdit, Lex;
    WrongCaseFound(x, y);
    RemovalApplied(true, Object([y, x]), a);
    assert [x] + [y] == [x, y];
    assert Order(true, a, b) < 0;
    RemovalGenerated(true, x, [y]);
    OneRemoval(true, Object([x, y]), Object([y]), Object([y, x]), a);
    TwoMembers(x, y);
    TwoUsable(keys, x, y);
    TwoUsable(keys, y, x);
    MemberUsable(true, keys, y);
  }

  lemma TwoUsable(keys: iset<Str>, x: Member, y: Member)
    requires x.key in keys && y.key in keys && x.key != y.key && x.value.Number? && y.value.Number?
    ensures var v := Object([x, y]); KeysIn(keys, v) && Unique(true, v) && Addressable(v)
  {
    FoldCase(x.key);
    FoldCase(y.key);
    var v := Object([x, y]);
    assert KeysOf(keys, v.members) && DistinctKeys(true, v.members);
    assert Unique(true, v);
  }

  lemma TwoMembers(x: Member, y: Member)
    requires x.key != y.key && x.value == Number(1) && y.value == Number(2)
    ensures DistinctKeys(true, [x, y]) && DistinctKeys(true, [y, x])
    ensures MeaningOf(true, [x, y]) == MeaningOf(true, [y, x])
    ensures MeaningOf(true, [x]) != MeaningOf(true, [y])
  {
    assert [x, y][1..] == [y] && [y, x][1..] == [x] && [x][1..] == [] && [y][1..] == [];
    FoldCase(x.key);
    FoldCase(y.key);
    hide Fold;
    assert x.key in MeaningOf(true, [x]) && x.key !in MeaningOf(true, [y]);
    MapUpdatesSwap(map[], y.key, Meaning(true, y.value), x.key, Meaning(true, x.value));
  }
}
