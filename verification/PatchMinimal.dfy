/** When cJSON_Utils.c generates no patch at all. */
module PatchMinimal {
  import opened Prelude
  import opened Json
  import opened Decimal
  import opened Sorting
  import opened Compare
  import opened PatchApply
  import opened PatchCreate

  /** No operation is generated exactly if both trees mean the same. */
  lemma {:induction false} NoEditsExactly(cased: bool, before: Json, after: Json)
    requires Unique(cased, before) && Unique(cased, after)
    ensures Edits(cased, before, after) == [] <==> Meaning(cased, before) == Meaning(cased, after)
    decreases Height(before), 2, 0
  {
    match (before, after)
    case (Array(x), Array(y)) =>
      hide EditItems;
      NoItemEdits(cased, x, y, 0, Height(before));
      assert Meaning(cased, before) == VArray(Meanings(cased, x));
      assert Meaning(cased, after) == VArray(Meanings(cased, y));
    case (Object(x), Object(y)) =>
      ObjectMeaning(cased, x);
      ObjectMeaning(cased, y);
      EditsOfObjects(cased, x, y);
      hide EditMembers, Edits, SortMembers, MeaningOf, Meaning, Height;
      SortedSide(cased, x);
      SortedSide(cased, y);
      hide Unique, Side;
      NoMemberEdits(cased, SortMembers(cased, x), SortMembers(cased, y), Height(before));
    case _ =>
  }

  lemma {:induction false} NoItemEdits(cased: bool, x: seq<Json>, y: seq<Json>, k: nat, bound: nat)
    requires forall i | 0 <= i < |x| :: Height(x[i]) < bound
    requires forall i | 0 <= i < |x| :: Unique(cased, x[i])
    requires forall i | 0 <= i < |y| :: Unique(cased, y[i])
    ensures EditItems(cased, x, y, k, bound) == [] <==> Meanings(cased, x) == Meanings(cased, y)
    decreases bound, 0, |x| + |y|
  {
    hide Meaning, Edits, Digits, Unique, Height, Meanings;
    if x != [] && y != [] {
      MeaningsCons(cased, x);
      MeaningsCons(cased, y);
      NoEditsExactly(cased, x[0], y[0]);
      NoItemEdits(cased, x[1..], y[1..], k + 1, bound);
      assert Meanings(cased, x)[1..] == Meanings(cased, x[1..]) && Meanings(cased, y)[1..] == Meanings(cased, y[1..]);
    }
  }

  lemma {:induction false} NoMemberEdits(cased: bool, x: seq<Member>, y: seq<Member>, bound: nat)
    requires forall i | 0 <= i < |x| :: Height(x[i].value) < bound
    requires Side(cased, x) && Side(cased, y)
    ensures EditMembers(cased, x, y, bound) == [] <==> MeaningOf(cased, x) == MeaningOf(cased, y)
    decreases bound, 0, |x| + |y|
  {
    hide Meaning, MeaningOf, Edits, Unique, Height, Under, Side, Order, Fold;
    var m, n := MeaningOf(cased, x), MeaningOf(cased, y);
    if x == [] && y == [] {
    } else if x == [] || (y != [] && Order(cased, x[0].key, y[0].key) > 0) {
      SideTail(cased, y);
      if x != [] {
        OrderTotal(cased, x[0].key, y[0].key);
      }
      SideLacks(cased, y[0].key, x);
      var f := Fold(cased, y[0].key);
      assert f in n && f !in m;
    } else if y == [] || Order(cased, x[0].key, y[0].key) < 0 {
      SideTail(cased, x);
      SideLacks(cased, x[0].key, y);
      var f := Fold(cased, x[0].key);
      assert f in m && f !in n;
    } else {
      SideTail(cased, x);
      SideTail(cased, y);
      OrderTotal(cased, x[0].key, y[0].key);
      NoEditsExactly(cased, x[0].value, y[0].value);
      NoMemberEdits(cased, x[1..], y[1..], bound);
      var f := Fold(cased, x[0].key);
      SameHeads(MeaningOf(cased, x[1..]), MeaningOf(cased, y[1..]), f, Meaning(cased, x[0].value),
        Meaning(cased, y[0].value));
    }
  }

  lemma SameHeads<K, V>(m: map<K, V>, n: map<K, V>, f: K, v: V, w: V)
    requires f !in m && f !in n
    ensures m[f := v] == n[f := w] <==> v == w && m == n
  {
    if m[f := v] == n[f := w] {
      assert m[f := v][f] == v && n[f := w][f] == w;
      assert m == m[f := v] - {f} == n[f := w] - {f} == n;
    }
  }
}
