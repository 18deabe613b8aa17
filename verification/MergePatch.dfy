/**
 JSON Merge Patch (RFC 7396) as cJSON_Utils.c applies and generates it.
 */
module MergePatch {
  import opened Prelude
  import opened Json
  import opened Sorting
  import opened Compare
  import opened CaseOrder

  // ----- applying -----

  /** `merge_patch`; no result stands for NULL, and no target for a missing member. */
  function Merged(cased: bool, target: Option<Json>, patch: Json): Option<Json>
    decreases patch, 1
  {
    if !patch.Object? then Duplicate(patch)
    else
      var members := if target.Some? && target.value.Object? then target.value.members else [];
      var merged := MergedMembers(cased, members, patch.members);
      if merged.None? then None else Some(Object(merged.value))
  }

  /** The loop over the patch members: each one detaches the first match and appends its replacement. */
  function MergedMembers(cased: bool, members: seq<Member>, patch: seq<Member>): Option<seq<Member>>
    decreases patch, 0
  {
    if patch == [] then Some(members)
    else
      var key := patch[0].key;
      var others := RemoveKey(cased, members, key);
      if patch[0].value.Null? then MergedMembers(cased, others, patch[1..])
      else
        var replacement := Merged(cased, Held(cased, members, key), patch[0].value);
        if replacement.None? then None
        else MergedMembers(cased, others + [Member(key, replacement.value)], patch[1..])
  }

  /** The value of the first matching member. */
  function Held(cased: bool, members: seq<Member>, key: Str): Option<Json> {
    var k := Find(cased, members, key);
    if k < |members| then Some(members[k].value) else None
  }

  /** `merge_patch` as written: the target's members change while the patch is walked. */
  method MergePatch(cased: bool, target: Option<Json>, patch: Json) returns (result: Option<Json>)
    ensures result == Merged(cased, target, patch)
    decreases patch
  {
    if !patch.Object? {
      return Duplicate(patch);
    }
    var members := if target.Some? && target.value.Object? then target.value.members else [];
    ghost var start := members;
    var k := 0;
    while k < |patch.members|
      invariant k <= |patch.members|
      invariant MergedMembers(cased, members, patch.members[k..]) == MergedMembers(cased, start, patch.members)
    {
      var child := patch.members[k];
      ghost var rest := patch.members[k..];
      assert rest[0] == child && rest[1..] == patch.members[k + 1..];
      if child.value.Null? {
        members := RemoveKey(cased, members, child.key);
      } else {
        var held := Held(cased, members, child.key);
        members := RemoveKey(cased, members, child.key);
        var replacement := MergePatch(cased, held, child.value);
        if replacement.None? {
          return None;
        }
        members := members + [Member(child.key, replacement.value)];
      }
      k := k + 1;
    }
    return Some(Object(members));
  }

  /** `MergePatch` of section 2 of RFC 7396. */
  function Rfc7396(target: Option<Value>, patch: Value): Value
    decreases patch
  {
    if !patch.VObject? then patch
    else
      var m, p := MapOf(target), patch.members;
      VObject(map f | f in m.Keys + p.Keys && !(f in p && p[f].VNull?) ::
        if f in p then Rfc7396(if f in m then Some(m[f]) else None, p[f]) else m[f])
  }

  function MapOf(target: Option<Value>): map<Str, Value> {
    if target.Some? && target.value.VObject? then target.value.members else map[]
  }

  /** True if every part of the patch that is copied can be duplicated. */
  predicate Copyable(patch: Json)
    decreases patch, 1
  {
    if patch.Object? then CopyableMembers(patch.members) else Height(patch) <= CIRCULAR_LIMIT
  }

  predicate CopyableMembers(members: seq<Member>)
    decreases members, 0
  {
    members != [] ==> Copyable(members[0].value) && CopyableMembers(members[1..])
  }

  function Mapped(cased: bool, v: Option<Json>): Option<Value> {
    if v.None? then None else Some(Meaning(cased, v.value))
  }

  ghost predicate UniqueIfAny(cased: bool, v: Option<Json>) {
    v.Some? ==> Unique(cased, v.value)
  }

  /** Merging succeeds exactly if the patch is copyable, and then computes the function of RFC 7396. */
  lemma {:induction false} MergedIsRfc(cased: bool, target: Option<Json>, patch: Json)
    requires UniqueIfAny(cased, target) && Unique(cased, patch)
    ensures var r := Merged(cased, target, patch);
      && (r.Some? <==> Copyable(patch))
      && (r.Some? ==> Unique(cased, r.value))
      && (r.Some? ==> Meaning(cased, r.value) == Rfc7396(Mapped(cased, target), Meaning(cased, patch)))
    decreases patch, 1
  {
    hide MeaningOf, MergedMembers, CopyableMembers, DuplicateAt;
    if !patch.Object? {
      DuplicateExact(patch, 0);
    } else {
      var members := if target.Some? && target.value.Object? then target.value.members else [];
      MergedMembersAreRfc(cased, members, patch.members);
      EmptyMeaning(cased);
    }
  }

  lemma EmptyMeaning(cased: bool)
    ensures MeaningOf(cased, []) == map[]
  {
  }

  /** The members the loop yields, as a map. */
  ghost predicate MergedMap(m: map<Str, Value>, p: map<Str, Value>, r: map<Str, Value>) {
    r == map f | f in m.Keys + p.Keys && !(f in p && p[f].VNull?) ::
      if f in p then Rfc7396(if f in m then Some(m[f]) else None, p[f]) else m[f]
  }

  lemma {:induction false} MergedMembersAreRfc(cased: bool, members: seq<Member>,
      patch: seq<Member>)
    requires DistinctKeys(cased, members) && UniqueValues(cased, members)
    requires DistinctKeys(cased, patch) && UniqueValues(cased, patch)
    ensures var r := MergedMembers(cased, members, patch);
      && (r.Some? <==> CopyableMembers(patch))
      && (r.Some? ==> DistinctKeys(cased, r.value) && UniqueValues(cased, r.value))
      && (r.Some? ==> MergedMap(MeaningOf(cased, members), MeaningOf(cased, patch), MeaningOf(cased, r.value)))
    decreases patch, 0
  {
    hide Meaning, MeaningOf, Fold, Unique, DistinctKeys, Rfc7396, Merged, RemoveKey;
    if patch == [] {
      EmptyMeaning(cased);
      MergedWithNothing(MeaningOf(cased, members));
    } else {
      var key := patch[0].key;
      PatchTail(cased, patch);
      var others := RemoveKey(cased, members, key);
      RemoveMeaning(cased, members, key);
      if patch[0].value.Null? {
        MergedMembersAreRfc(cased, others, patch[1..]);
        var merged := MergedMembers(cased, others, patch[1..]);
        if merged.Some? {
          NullStep(cased, members, patch, MeaningOf(cased, merged.value));
        }
      } else {
        HeldMeaning(cased, members, key);
        MergedIsRfc(cased, Held(cased, members, key), patch[0].value);
        var replacement := Merged(cased, Held(cased, members, key), patch[0].value);
        if replacement.Some? {
          var added := Member(key, replacement.value);
          AppendDistinct(cased, others, added);
          AppendMeaning(cased, others, added);
          MergedMembersAreRfc(cased, others + [added], patch[1..]);
          var merged := MergedMembers(cased, others + [added], patch[1..]);
          if merged.Some? {
            ValueStep(cased, members, patch, MeaningOf(cased, merged.value));
          }
        }
      }
    }
  }

  lemma MergedWithNothing(m: map<Str, Value>)
    ensures MergedMap(m, map[], m)
  {
    hide Rfc7396;
  }

  lemma PatchTail(cased: bool, patch: seq<Member>)
    requires DistinctKeys(cased, patch) && UniqueValues(cased, patch)
    requires patch != []
    ensures DistinctKeys(cased, patch[1..]) && UniqueValues(cased, patch[1..])
    ensures var f := Fold(cased, patch[0].key); var rest := MeaningOf(cased, patch[1..]);
      f !in rest && MeaningOf(cased, patch) == rest[f := Meaning(cased, patch[0].value)]
  {
    hide Meaning, Fold, Unique;
    var f := Fold(cased, patch[0].key);
    MeaningKeys(cased, patch[1..]);
  }

  lemma HeldMeaning(cased: bool, members: seq<Member>, key: Str)
    requires UniqueValues(cased, members)
    ensures var h := Held(cased, members, key); var m := MeaningOf(cased, members); var f := Fold(cased, key);
      UniqueIfAny(cased, h) && Mapped(cased, h) == if f in m then Some(m[f]) else None
  {
    hide Meaning, MeaningOf, Fold, Unique;
    MeaningAt(cased, members, key);
  }

  lemma NullStep(cased: bool, members: seq<Member>, patch: seq<Member>, r: map<Str, Value>)
    requires patch != [] && patch[0].value.Null?
    requires Fold(cased, patch[0].key) !in MeaningOf(cased, patch[1..])
    requires MergedMap(MeaningOf(cased, members) - {Fold(cased, patch[0].key)}, MeaningOf(cased, patch[1..]), r)
    ensures MergedMap(MeaningOf(cased, members), MeaningOf(cased, patch), r)
  {
    var rest, f := MeaningOf(cased, patch[1..]), Fold(cased, patch[0].key);
    hide Fold, Rfc7396, MergedMap;
    assert MeaningOf(cased, patch) == rest[f := VNull];
    hide MeaningOf, Meaning;
    NullStepMap(MeaningOf(cased, members), rest, f, r);
  }

  lemma NullStepMap(m: map<Str, Value>, rest: map<Str, Value>, f: Str, r: map<Str, Value>)
    requires f !in rest && MergedMap(m - {f}, rest, r)
    ensures MergedMap(m, rest[f := VNull], r)
  {
    hide Rfc7396;
  }

  lemma ValueStep(cased: bool, members: seq<Member>, patch: seq<Member>, r: map<Str, Value>)
    requires patch != [] && !patch[0].value.Null?
    requires Fold(cased, patch[0].key) !in MeaningOf(cased, patch[1..])
    requires var m, f := MeaningOf(cased, members), Fold(cased, patch[0].key);
      var v := Rfc7396(if f in m then Some(m[f]) else None, Meaning(cased, patch[0].value));
      MergedMap((m - {f})[f := v], MeaningOf(cased, patch[1..]), r)
    ensures MergedMap(MeaningOf(cased, members), MeaningOf(cased, patch), r)
  {
    var rest, f := MeaningOf(cased, patch[1..]), Fold(cased, patch[0].key);
    hide Fold, Rfc7396, MergedMap, Meaning;
    var w := Meaning(cased, patch[0].value);
    NotNull(cased, patch[0].value);
    assert MeaningOf(cased, patch) == rest[f := w];
    hide MeaningOf;
    ValueStepMap(MeaningOf(cased, members), rest, f, w, r);
  }

  lemma NotNull(cased: bool, v: Json)
    ensures v.Null? <==> Meaning(cased, v).VNull?
  {
  }

  lemma ValueStepMap(m: map<Str, Value>, rest: map<Str, Value>, f: Str, w: Value, r: map<Str, Value>)
    requires f !in rest && !w.VNull?
    requires MergedMap((m - {f})[f := Rfc7396(if f in m then Some(m[f]) else None, w)], rest, r)
    ensures MergedMap(m, rest[f := w], r)
  {
    hide Rfc7396;
  }

  // ----- generating -----

  /** `generate_merge_patch`; no result stands for NULL. */
  function Generated(cased: bool, before: Json, after: Json): Option<Json>
    decreases Height(after), 1, 0
  {
    if !after.Object? || !before.Object? then Duplicate(after)
    else
      var patch := GeneratedMembers(cased, SortMembers(cased, before.members),
          SortMembers(cased, after.members), Height(after));
      if patch == [] then None else Some(Object(patch))
  }

  /** The walk over two sorted objects; it compares keys by `strcmp` and recurses without case. */
  function GeneratedMembers(cased: bool, x: seq<Member>, y: seq<Member>,
      ghost bound: nat): seq<Member>
    requires forall i | 0 <= i < |y| :: Height(y[i].value) < bound
    decreases bound, 0, |x| + |y|
  {
    if x == [] && y == [] then []
    else if y == [] || (x != [] && Lex(x[0].key, y[0].key) < 0) then
      [Member(x[0].key, Null)] + GeneratedMembers(cased, x[1..], y, bound)
    else if x == [] || Lex(x[0].key, y[0].key) > 0 then
      Added(y[0].key, Duplicate(y[0].value)) + GeneratedMembers(cased, x, y[1..], bound)
    else
      var r := CompareJson(cased, x[0].value, y[0].value);
      CompareJsonHeights(cased, x[0].value, y[0].value);
      var changed := if r.same then None else Generated(false, r.a, r.b);
      Added(y[0].key, changed) + GeneratedMembers(cased, x[1..], y[1..], bound)
  }

  /** `generate_merge_patch` as written. */
  method GenerateMergePatch(cased: bool, before: Json, after: Json) returns (patch: Option<Json>)
    ensures patch == Generated(cased, before, after)
    decreases Height(after)
  {
    hide *;
    if !after.Object? || !before.Object? {
      GeneratedScalar(cased, before, after);
      return Duplicate(after);
    }
    var x, y := SortMembers(cased, before.members), SortMembers(cased, after.members);
    var i, j := 0, 0;
    var members: seq<Member> := [];
    ghost var bound := Height(after);
    assert x[0..] == x && y[0..] == y;
    while i < |x| || j < |y|
      invariant i <= |x| && j <= |y|
      invariant members + GeneratedMembers(cased, x[i..], y[j..], bound) == GeneratedMembers(cased, x, y, bound)
      decreases |x| - i + |y| - j
    {
      GeneratedStep(cased, members, x, y, i, j, bound);
      var diff := if i == |x| then 1 else if j == |y| then -1 else Lex(x[i].key, y[j].key);
      if diff < 0 {
        members := members + [Member(x[i].key, Null)];
        i := i + 1;
      } else if diff > 0 {
        members := members + Added(y[j].key, Duplicate(y[j].value));
        j := j + 1;
      } else {
        var r := CompareJson(cased, x[i].value, y[j].value);
        CompareJsonHeights(cased, x[i].value, y[j].value);
        if !r.same {
          var changed := GenerateMergePatch(false, r.a, r.b);
          members := members + Added(y[j].key, changed);
        } else {
          NothingAdded(members, y[j].key);
        }
        i, j := i + 1, j + 1;
      }
    }
    GeneratedEnd(cased, x[i..], y[j..], bound);
    assert members == GeneratedMembers(cased, x, y, bound);
    GeneratedObjects(cased, before, after);
    return if members == [] then None else Some(Object(members));
  }

  lemma NothingAdded(members: seq<Member>, key: Str)
    ensures members + Added(key, None) == members
  {
  }

  lemma GeneratedScalar(cased: bool, before: Json, after: Json)
    requires !after.Object? || !before.Object?
    ensures Generated(cased, before, after) == Duplicate(after)
  {
    hide DuplicateAt;
  }

  lemma GeneratedObjects(cased: bool, before: Json, after: Json)
    requires before.Object? && after.Object?
    ensures Generated(cased, before, after)
         == (var patch := GeneratedMembers(cased, SortMembers(cased, before.members),
             SortMembers(cased, after.members), Height(after));
             if patch == [] then None else Some(Object(patch)))
  {
  }

  lemma GeneratedEnd(cased: bool, x: seq<Member>, y: seq<Member>, bound: nat)
    requires x == [] && y == []
    ensures GeneratedMembers(cased, x, y, bound) == []
  {
  }

  /** One round of the walk, seen from the positions it has reached with `members` generated so far. */
  lemma GeneratedStep(cased: bool, members: seq<Member>, x: seq<Member>, y: seq<Member>, i: nat,
      j: nat, bound: nat)
    requires i <= |x| && j <= |y| && (i < |x| || j < |y|)
    requires forall k | 0 <= k < |y| :: Height(y[k].value) < bound
    ensures var diff := if i == |x| then 1 else if j == |y| then -1 else Lex(x[i].key, y[j].key);
      var all := members + GeneratedMembers(cased, x[i..], y[j..], bound);
      && (diff < 0 ==> all == members + [Member(x[i].key, Null)] + GeneratedMembers(cased, x[i + 1..], y[j..], bound))
      && (diff > 0 ==>
            all == members + Added(y[j].key, Duplicate(y[j].value))
                   + GeneratedMembers(cased, x[i..], y[j + 1..], bound))
      && (diff == 0 ==>
            var r := CompareJson(cased, x[i].value, y[j].value);
            var changed := if r.same then None else Generated(false, r.a, r.b);
            all == members + Added(y[j].key, changed) + GeneratedMembers(cased, x[i + 1..], y[j + 1..], bound))
  {
    hide CompareJson, DuplicateAt, Generated, Height, Lex, Added;
    var a, b := x[i..], y[j..];
    assert i < |x| ==> a[0] == x[i] && a[1..] == x[i + 1..];
    assert j < |y| ==> b[0] == y[j] && b[1..] == y[j + 1..];
  }

  /** Adding NULL to an object adds nothing. */
  function Added(key: Str, v: Option<Json>): seq<Member> {
    if v.None? then [] else [Member(key, v.value)]
  }

  /** The patch from one value to another, on maps. */
  function Difference(before: Value, after: Value): Value
    decreases after
  {
    if !after.VObject? || !before.VObject? then after
    else
      var m, n := before.members, after.members;
      VObject(map f | f in m.Keys + n.Keys && !(f in m && f in n && m[f] == n[f]) ::
        if f !in n then VNull else if f !in m then n[f] else Difference(m[f], n[f]))
  }

  /**
   A merge patch can express the step: no member of an object is null unless the old value has the
   same null there.
   */
  predicate Expressible(before: Option<Value>, after: Value)
    decreases after
  {
    after.VObject? ==>
      var m := MapOf(before);
      forall f | f in after.members ::
        var was := if f in m then Some(m[f]) else None;
        was == Some(after.members[f]) || (after.members[f] != VNull && Expressible(was, after.members[f]))
  }

  lemma {:induction false} PlainMerge(before: Option<Value>, after: Value)
    requires before.None? || !before.value.VObject?
    ensures Rfc7396(before, after) == after <==> Expressible(before, after)
    decreases after
  {
    if after.VObject? {
      var n := after.members;
      forall f | f in n ensures Rfc7396(None, n[f]) == n[f] <==> Expressible(None, n[f]) {
        PlainMerge(None, n[f]);
      }
      var r := Rfc7396(before, after).members;
      assert forall f | f in r :: f in n && r[f] == Rfc7396(None, n[f]);
      assert forall f | f in n && n[f] != VNull :: f in r;
      if Expressible(before, after) {
        assert r == n;
      } else {
        var f :| f in n && !(n[f] != VNull && Expressible(None, n[f]));
        assert f !in r || r[f] != n[f];
      }
    }
  }

  /** Merging the difference into the old value gives the new one exactly if it is expressible. */
  lemma {:induction false} DifferenceMerges(before: Value, after: Value)
    ensures Rfc7396(Some(before), Difference(before, after)) == after <==> Expressible(Some(before), after)
    decreases after
  {
    if !after.VObject? {
    } else if !before.VObject? {
      PlainMerge(Some(before), after);
    } else {
      var m, n := before.members, after.members;
      var d := Difference(before, after).members;
      var r := Rfc7396(Some(before), Difference(before, after)).members;
      forall f | f in n ensures (f in r && r[f] == n[f]) <==> MemberExpressible(m, n, f) {
        if f in m && m[f] != n[f] {
          DifferenceMerges(m[f], n[f]);
        } else if f !in m {
          PlainMerge(None, n[f]);
        }
      }
      assert forall f | f in m && f !in n :: f in d && d[f] == VNull;
      hide Rfc7396, Difference;
      if Expressible(Some(before), after) {
        assert forall f | f in n :: MemberExpressible(m, n, f);
        assert r == n;
      } else {
        var f :| f in n && !MemberExpressible(m, n, f);
        assert r != n;
      }
    }
  }

  predicate MemberExpressible(m: map<Str, Value>, n: map<Str, Value>, f: Str)
    requires f in n
  {
    var was := if f in m then Some(m[f]) else None;
    was == Some(n[f]) || (n[f] != VNull && Expressible(was, n[f]))
  }

  // ----- what is generated -----

  /** The keys on which case may matter: all of them, but those at the top in the case-sensitive variant. */
  ghost predicate KeysSuit(cased: bool, keys: iset<Str>, v: Json) {
    if v.Object? then MembersSuit(cased, keys, v.members) else cased || KeysIn(keys, v)
  }

  ghost predicate MembersSuit(cased: bool, keys: iset<Str>, x: seq<Member>) {
    forall i | 0 <= i < |x| :: (cased || x[i].key in keys) && KeysIn(keys, x[i].value)
  }

  /** What each side of the walk is. */
  ghost predicate Walkable(cased: bool, keys: iset<Str>, x: seq<Member>) {
    Increasing(true, x) && UniqueValues(true, x) && MembersSuit(cased, keys, x)
  }

  lemma WalkableTail(cased: bool, keys: iset<Str>, x: seq<Member>)
    requires Walkable(cased, keys, x) && x != []
    ensures Walkable(cased, keys, x[1..]) && Unique(true, x[0].value)
    ensures (cased || x[0].key in keys) && KeysIn(keys, x[0].value)
    ensures var f := x[0].key; var m := MeaningOf(true, x);
      && f in m && m[f] == Meaning(true, x[0].value) && f !in MeaningOf(true, x[1..])
      && m == MeaningOf(true, x[1..])[f := Meaning(true, x[0].value)]
  {
    hide Order, Unique, KeysIn, Meaning, MeaningOf;
    HeadOfMap(true, x);
  }

  /** The members of a difference, as a map. */
  ghost predicate DifferenceMap(m: map<Str, Value>, n: map<Str, Value>, d: map<Str, Value>) {
    d == map f | f in m.Keys + n.Keys && !(f in m && f in n && m[f] == n[f]) ::
      if f !in n then VNull else if f !in m then n[f] else Difference(m[f], n[f])
  }

  /** A member list that is a usable patch. */
  ghost predicate PatchMembers(cased: bool, keys: iset<Str>, d: seq<Member>) {
    DistinctKeys(true, d) && UniqueValues(true, d) && CopyableMembers(d) && MembersSuit(cased, keys, d)
  }

  lemma PatchCons(cased: bool, keys: iset<Str>, m: Member, d: seq<Member>)
    requires PatchMembers(cased, keys, d) && m.key !in MeaningOf(true, d)
    requires Unique(true, m.value) && Copyable(m.value)
    requires (cased || m.key in keys) && KeysIn(keys, m.value)
    ensures PatchMembers(cased, keys, [m] + d)
    ensures MeaningOf(true, [m] + d) == MeaningOf(true, d)[m.key := Meaning(true, m.value)]
  {
    hide Unique, Meaning, Copyable, KeysIn;
    var r := [m] + d;
    assert r[0] == m && r[1..] == d;
    assert MeaningOf(true, r) == MeaningOf(true, r[1..])[Fold(true, r[0].key) := Meaning(true, r[0].value)];
    hide MeaningOf;
    forall i | 0 <= i < |d| ensures d[i].key != m.key {
      MeaningOfMember(true, d, i);
    }
  }

  lemma RemovedStep(m: map<Str, Value>, n: map<Str, Value>, d: map<Str, Value>, f: Str, v: Value)
    requires DifferenceMap(m, n, d) && f !in m && f !in n
    ensures f !in d && DifferenceMap(m[f := v], n, d[f := VNull])
  {
    hide Difference;
  }

  lemma AddedStep(m: map<Str, Value>, n: map<Str, Value>, d: map<Str, Value>, f: Str, v: Value)
    requires DifferenceMap(m, n, d) && f !in m && f !in n
    ensures f !in d && DifferenceMap(m, n[f := v], d[f := v])
  {
    hide Difference;
  }

  lemma SharedStep(m: map<Str, Value>, n: map<Str, Value>, d: map<Str, Value>, f: Str, v: Value, w: Value)
    requires DifferenceMap(m, n, d) && f !in m && f !in n
    ensures f !in d
    ensures DifferenceMap(m[f := v], n[f := w], if v == w then d else d[f := Difference(v, w)])
  {
    hide Difference;
  }

  lemma NoDifference(m: map<Str, Value>, n: map<Str, Value>, d: map<Str, Value>)
    requires DifferenceMap(m, n, d)
    ensures d == map[] <==> m == n
  {
    hide Difference;
    forall f | f in d ensures m != n {
    }
    if d == map[] {
      assert forall f | f in m :: f !in d;
      assert forall f | f in n :: f !in d;
      assert m == n;
    }
  }

  /** The patch between two values. */
  ghost predicate PatchOf(cased: bool, keys: iset<Str>, before: Json, after: Json, p: Option<Json>) {
    if before.Object? && after.Object? && Meaning(true, before) == Meaning(true, after) then p.None?
    else
      && p.Some? && Unique(true, p.value) && Copyable(p.value) && KeysSuit(cased, keys, p.value)
      && Meaning(true, p.value) == Difference(Meaning(true, before), Meaning(true, after))
  }

  /** The generator yields the difference of the two values, or nothing if two objects are equal. */
  lemma {:induction false} GeneratedIsDifference(cased: bool, keys: iset<Str>, before: Json, after: Json)
    requires Unique(true, before) && Unique(true, after) && Height(after) <= CIRCULAR_LIMIT
    requires CaseKeepsOrder(keys) && KeysSuit(cased, keys, before) && KeysSuit(cased, keys, after)
    ensures PatchOf(cased, keys, before, after, Generated(cased, before, after))
    decreases Height(after), 1, 0
  {
    hide GeneratedMembers, MeaningOf, DuplicateAt, SortMembers, KeysIn, CaseKeepsOrder;
    if !after.Object? || !before.Object? {
      DuplicateExact(after, 0);
      DuplicateCopies(after);
    } else {
      ObjectsDiffer(cased, keys, before.members, after.members);
    }
  }

  lemma {:induction false} DuplicateCopies(v: Json)
    requires Height(v) <= CIRCULAR_LIMIT
    ensures Copyable(v)
    decreases v, 1
  {
    if v.Object? {
      CopyableSmall(v.members);
    }
  }

  lemma {:induction false} CopyableSmall(members: seq<Member>)
    requires HeightOfMembers(members) <= CIRCULAR_LIMIT
    ensures CopyableMembers(members)
    decreases members, 0
  {
    if members != [] {
      DuplicateCopies(members[0].value);
      CopyableSmall(members[1..]);
    }
  }

  lemma {:induction false} ObjectsDiffer(cased: bool, keys: iset<Str>, x: seq<Member>,
      y: seq<Member>)
    requires Unique(true, Object(x)) && Unique(true, Object(y))
    requires CaseKeepsOrder(keys) && Height(Object(y)) <= CIRCULAR_LIMIT
    requires MembersSuit(cased, keys, x) && MembersSuit(cased, keys, y)
    ensures PatchOf(cased, keys, Object(x), Object(y), Generated(cased, Object(x), Object(y)))
    decreases Height(Object(y)), 0, |x| + |y| + 1
  {
    SortedWalkable(cased, keys, x);
    SortedWalkable(cased, keys, y);
    var sx, sy := SortMembers(cased, x), SortMembers(cased, y);
    hide SortMembers, MeaningOf, MembersSuit, Unique, Meaning, PatchOf, DifferenceMap, PatchMembers, Walkable, Height,
      GeneratedMembers, CaseKeepsOrder;
    MembersDiffer(cased, keys, sx, sy, Height(Object(y)));
    var d := GeneratedMembers(cased, sx, sy, Height(Object(y)));
    ObjectPatch(cased, keys, x, y, d);
  }

  lemma ObjectPatch(cased: bool, keys: iset<Str>, x: seq<Member>, y: seq<Member>, d: seq<Member>)
    requires PatchMembers(cased, keys, d)
    requires DifferenceMap(MeaningOf(true, x), MeaningOf(true, y), MeaningOf(true, d))
    ensures PatchOf(cased, keys, Object(x), Object(y), if d == [] then None else Some(Object(d)))
  {
    hide MeaningOf, DifferenceMap, Difference, CopyableMembers, MembersSuit;
    NoDifference(MeaningOf(true, x), MeaningOf(true, y), MeaningOf(true, d));
    DifferenceOfMaps(MeaningOf(true, x), MeaningOf(true, y), MeaningOf(true, d));
    EmptyMeaning(true);
    if d != [] {
      MeaningOfMember(true, d, 0);
    }
  }

  lemma DifferenceOfMaps(m: map<Str, Value>, n: map<Str, Value>, d: map<Str, Value>)
    requires DifferenceMap(m, n, d)
    ensures Difference(VObject(m), VObject(n)) == VObject(d)
  {
  }

  lemma SortedWalkable(cased: bool, keys: iset<Str>, x: seq<Member>)
    requires Unique(true, Object(x)) && CaseKeepsOrder(keys) && MembersSuit(cased, keys, x)
    ensures var s := SortMembers(cased, x);
      Walkable(cased, keys, s) && MeaningOf(true, s) == MeaningOf(true, x)
  {
    assert DistinctKeys(true, x) && UniqueValues(true, x);
    hide MeaningOf, Unique, Order, Fold, SortMembers, CaseKeepsOrder, KeysIn;
    SortedMembers(true, x);
    if !cased {
      SameSortMembers(keys, x);
    }
    var s := SortMembers(true, x);
    forall i | 0 <= i < |s| ensures (cased || s[i].key in keys) && KeysIn(keys, s[i].value) {
      assert s[i] in multiset(x);
      var j :| 0 <= j < |x| && x[j] == s[i];
    }
  }

  lemma {:induction false} MembersDiffer(cased: bool, keys: iset<Str>, x: seq<Member>,
      y: seq<Member>, bound: nat)
    requires CaseKeepsOrder(keys) && bound <= CIRCULAR_LIMIT
    requires Walkable(cased, keys, x) && Walkable(cased, keys, y)
    requires forall i | 0 <= i < |y| :: Height(y[i].value) < bound
    ensures var d := GeneratedMembers(cased, x, y, bound);
      && PatchMembers(cased, keys, d)
      && DifferenceMap(MeaningOf(true, x), MeaningOf(true, y), MeaningOf(true, d))
    decreases bound, 0, |x| + |y|
  {
    hide Meaning, Unique, Height, Order, KeysIn, CompareJson, Generated, Copyable, MeaningOf, Walkable, DifferenceMap,
      PatchMembers, DuplicateAt, CaseKeepsOrder, Lex;
    if x == [] && y == [] {
      NothingDiffers(cased, keys);
    } else if y == [] || (x != [] && Lex(x[0].key, y[0].key) < 0) {
      WalkableTail(cased, keys, x);
      HeadAbsent(cased, keys, x[0].key, y);
      MembersDiffer(cased, keys, x[1..], y, bound);
      var d := GeneratedMembers(cased, x[1..], y, bound);
      RemovedStep(MeaningOf(true, x[1..]), MeaningOf(true, y), MeaningOf(true, d), x[0].key, Meaning(true, x[0].value));
      NullUsable(keys);
      PatchCons(cased, keys, Member(x[0].key, Null), d);
    } else if x == [] || Lex(x[0].key, y[0].key) > 0 {
      WalkableTail(cased, keys, y);
      LexTotal(y[0].key, if x == [] then [] else x[0].key);
      HeadAbsent(cased, keys, y[0].key, x);
      MembersDiffer(cased, keys, x, y[1..], bound);
      var d := GeneratedMembers(cased, x, y[1..], bound);
      AddedStep(MeaningOf(true, x), MeaningOf(true, y[1..]), MeaningOf(true, d), y[0].key, Meaning(true, y[0].value));
      DuplicateExact(y[0].value, 0);
      DuplicateCopies(y[0].value);
      PatchCons(cased, keys, y[0], d);
    } else {
      WalkableTail(cased, keys, x);
      WalkableTail(cased, keys, y);
      LexTotal(x[0].key, y[0].key);
      MembersDiffer(cased, keys, x[1..], y[1..], bound);
      var d := GeneratedMembers(cased, x[1..], y[1..], bound);
      var v, w := Meaning(true, x[0].value), Meaning(true, y[0].value);
      SharedStep(MeaningOf(true, x[1..]), MeaningOf(true, y[1..]), MeaningOf(true, d), x[0].key, v, w);
      var r := CompareJson(cased, x[0].value, y[0].value);
      SharedCompared(cased, keys, x[0].value, y[0].value);
      if r.same {
        assert GeneratedMembers(cased, x, y, bound) == [] + d == d;
      } else {
        GeneratedIsDifference(false, keys, r.a, r.b);
        var changed := Generated(false, r.a, r.b);
        assert changed.Some?;
        assert GeneratedMembers(cased, x, y, bound) == [Member(y[0].key, changed.value)] + d;
        KeysOfSuited(keys, changed.value);
        PatchCons(cased, keys, Member(y[0].key, changed.value), d);
      }
    }
  }

  lemma KeysOfSuited(keys: iset<Str>, v: Json)
    ensures KeysSuit(false, keys, v) <==> KeysIn(keys, v)
  {
  }

  lemma NothingDiffers(cased: bool, keys: iset<Str>)
    ensures PatchMembers(cased, keys, [])
    ensures DifferenceMap(MeaningOf(true, []), MeaningOf(true, []), MeaningOf(true, []))
  {
  }

  lemma NullUsable(keys: iset<Str>)
    ensures Unique(true, Null) && Copyable(Null) && Meaning(true, Null) == VNull && KeysIn(keys, Null)
  {
  }

  lemma HeadAbsent(cased: bool, keys: iset<Str>, key: Str, y: seq<Member>)
    requires Walkable(cased, keys, y) && (y != [] ==> Lex(key, y[0].key) < 0)
    ensures key !in MeaningOf(true, y)
  {
    hide MeaningOf, Meaning, Unique, Lex, KeysIn;
    if y != [] {
      KeyBelow(true, key, y);
    } else {
      EmptyMeaning(true);
    }
  }

  /** What the comparison of two shared members says and leaves. */
  lemma SharedCompared(cased: bool, keys: iset<Str>, a: Json, b: Json)
    requires CaseKeepsOrder(keys) && KeysIn(keys, a) && KeysIn(keys, b)
    requires Unique(true, a) && Unique(true, b)
    ensures var r := CompareJson(cased, a, b);
      && (r.same <==> Meaning(true, a) == Meaning(true, b))
      && Meaning(true, r.a) == Meaning(true, a) && Unique(true, r.a) && KeysSuit(false, keys, r.a)
      && Meaning(true, r.b) == Meaning(true, b) && Unique(true, r.b) && KeysSuit(false, keys, r.b)
      && Height(r.b) <= Height(b)
  {
    hide Meaning, Unique, CompareJson, KeysIn, Height, CaseKeepsOrder, KeysSuit;
    SameCompare(keys, a, b);
    var r := CompareJson(true, a, b);
    KeysOfSuited(keys, r.a);
    KeysOfSuited(keys, r.b);
    CompareJsonIsEquality(true, a, b);
    CompareJsonKeeps(true, true, a, b);
    CompareJsonHeights(true, a, b);
  }

  // ----- merging with and without case -----

  lemma {:induction false} SameMerged(keys: iset<Str>, target: Option<Json>, patch: Json)
    requires CaseDistinct(keys) && KeysIn(keys, patch)
    requires target.Some? ==> KeysIn(keys, target.value)
    ensures Merged(false, target, patch) == Merged(true, target, patch)
    ensures var r := Merged(true, target, patch); r.Some? ==> KeysIn(keys, r.value)
    decreases patch, 1
  {
    hide DuplicateAt, MergedMembers, CaseDistinct;
    if !patch.Object? {
      DuplicateExact(patch, 0);
    } else {
      var members := if target.Some? && target.value.Object? then target.value.members else [];
      SameMergedMembers(keys, members, patch.members);
    }
  }

  lemma {:induction false} SameMergedMembers(keys: iset<Str>, members: seq<Member>,
      patch: seq<Member>)
    requires CaseDistinct(keys) && KeysOf(keys, members) && KeysOf(keys, patch)
    ensures MergedMembers(false, members, patch) == MergedMembers(true, members, patch)
    ensures var r := MergedMembers(true, members, patch); r.Some? ==> KeysOf(keys, r.value)
    decreases patch, 0
  {
    hide KeysIn, CaseDistinct, Find, Without, Merged;
    if patch != [] {
      var key := patch[0].key;
      CaseDoesNotMatter(keys, members, key);
      var others, held := RemoveKey(true, members, key), Held(true, members, key);
      if Find(true, members, key) < |members| {
        KeysWithout(keys, members, Find(true, members, key));
      }
      if patch[0].value.Null? {
        SameMergedMembers(keys, others, patch[1..]);
      } else {
        SameMerged(keys, held, patch[0].value);
        var replacement := Merged(true, held, patch[0].value);
        if replacement.Some? {
          SameMergedMembers(keys, others + [Member(key, replacement.value)], patch[1..]);
        }
      }
    }
  }

  // ----- the round trip -----

  /** What a round trip is asked of. */
  ghost predicate Mergeable(cased: bool, keys: iset<Str>, before: Json, after: Json) {
    && Unique(cased, before) && Unique(cased, after)
    && Height(before) <= CIRCULAR_LIMIT && Height(after) <= CIRCULAR_LIMIT
    && KeysSuit(cased, keys, before) && KeysSuit(cased, keys, after)
  }

  /**
   Merging the generated patch into a duplicate of the old value gives the new value exactly if the
   step is expressible; no patch is generated exactly if two objects are equal.
   */
  ghost predicate Restores(cased: bool, before: Json, after: Json) {
    var p := Generated(cased, before, after);
    && (p.None? <==> before.Object? && after.Object? && Meaning(true, before) == Meaning(true, after))
    && (p.Some? ==>
          var r := Merged(cased, Duplicate(before), p.value);
          && r.Some? && Unique(cased, r.value)
          && (Meaning(cased, r.value) == Meaning(cased, after)
              <==> Expressible(Some(Meaning(true, before)), Meaning(true, after))))
  }

  lemma MergeRoundTrip(cased: bool, keys: iset<Str>, before: Json, after: Json)
    requires CaseKeepsOrder(keys) && Mergeable(cased, keys, before, after)
    ensures Restores(cased, before, after)
  {
    hide Meaning, Unique, Generated, Merged, Difference, Rfc7396, Copyable, DuplicateAt, Expressible, KeysSuit,
      CaseKeepsOrder, CaseDistinct, Height, KeysIn;
    if !cased {
      UniqueWithCase(before);
      UniqueWithCase(after);
    }
    GeneratedIsDifference(cased, keys, before, after);
    DuplicateExact(before, 0);
    var p := Generated(cased, before, after);
    if p.Some? {
      MergedIsRfc(true, Some(before), p.value);
      DifferenceMerges(Meaning(true, before), Meaning(true, after));
      if !cased {
        MergedWithoutCase(keys, before, after, p.value);
      }
    }
  }

  lemma MergedWithoutCase(keys: iset<Str>, before: Json, after: Json, p: Json)
    requires CaseKeepsOrder(keys) && Mergeable(false, keys, before, after)
    requires KeysSuit(false, keys, p)
    requires var r := Merged(true, Some(before), p); r.Some? && Unique(true, r.value)
    ensures var r := Merged(true, Some(before), p);
      && Merged(false, Some(before), p) == r && Unique(false, r.value)
      && (Meaning(true, r.value) == Meaning(true, after) <==> Meaning(false, r.value) == Meaning(false, after))
  {
    hide Meaning, Unique, Merged, KeysSuit, CaseKeepsOrder, CaseDistinct, Height, KeysIn;
    KeysOfSuited(keys, before);
    KeysOfSuited(keys, after);
    KeysOfSuited(keys, p);
    KeptApart(keys);
    SameMerged(keys, Some(before), p);
    var r := Merged(true, Some(before), p).value;
    UniqueWithoutCase(keys, r);
    SameMeaning(keys, r, after);
  }

  /** All steps between trees with suiting keys. */
  ghost predicate RoundTrips(cased: bool, keys: iset<Str>) {
    forall before, after | Mergeable(cased, keys, before, after) :: Restores(cased, before, after)
  }

  /** Every round trip succeeds exactly if case keeps the order of the keys. */
  lemma MergeRoundTripIff(cased: bool, keys: iset<Str>)
    ensures RoundTrips(cased, keys) <==> CaseKeepsOrder(keys)
  {
    hide Mergeable, Restores, Lex, Order;
    if CaseKeepsOrder(keys) {
      forall before, after | Mergeable(cased, keys, before, after) ensures Restores(cased, before, after) {
        MergeRoundTrip(cased, keys, before, after);
      }
    } else {
      var a, b :| a in keys && b in keys && Lex(a, b) < 0 && Order(false, a, b) >= 0;
      if cased {
        BelowBreaks(keys, a, b);
      } else if Order(false, a, b) == 0 {
        CaseClashBreaks(keys, a, b);
      } else {
        OrderBreaks(keys, a, b);
      }
    }
  }

  // ----- what breaks otherwise -----

  /** Sorting without case puts `b` first, so that `strcmp` sees it before `a`: "a" is added, then all is removed. */
  lemma WalkBack(cased: bool, a: Member, b: Member, bound: nat)
    requires Lex(a.key, b.key) < 0 && a.value.Number? && 0 < bound
    ensures Height(a.value) == 0
    ensures GeneratedMembers(cased, [b, a], [a], bound) == [a, Member(b.key, Null), Member(a.key, Null)]
    ensures GeneratedMembers(cased, [b], [a], bound) == [a, Member(b.key, Null)]
  {
    LexTotal(a.key, b.key);
    DuplicateExact(a.value, 0);
    hide CompareJson, DuplicateAt, Lex;
    assert [b, a][1..] == [a] && [a][1..] == [] && [b][1..] == [];
    assert GeneratedMembers(cased, [], [], bound) == [];
    assert GeneratedMembers(cased, [a], [], bound) == [Member(a.key, Null)];
    assert GeneratedMembers(cased, [b], [], bound) == [Member(b.key, Null)];
    assert GeneratedMembers(cased, [b, a], [], bound) == [Member(b.key, Null), Member(a.key, Null)];
  }

  lemma NullsRemove(cased: bool, a: Str, b: Str, x: Member, y: Member)
    requires Fold(cased, x.key) == Fold(cased, b) && y.key == a
    ensures MergedMembers(cased, [x, y], [Member(b, Null), Member(a, Null)]) == Some([])
    ensures Fold(cased, a) == Fold(cased, b) ==> MergedMembers(cased, [y], [Member(b, Null)]) == Some([])
  {
    hide Fold;
    var q, r := Member(b, Null), Member(a, Null);
    assert [q, r][1..] == [r] && [r][1..] == [] && [q][1..] == [];
    assert Find(cased, [x, y], b) == 0 && Find(cased, [y], a) == 0;
    assert Without([x, y], 0) == [y] && Without([y], 0) == [];
    assert MergedMembers(cased, [], []) == Some([]);
    assert MergedMembers(cased, [y], [r]) == Some([]);
  }

  /** Merging it into the old members leaves nothing. */
  lemma MergeBack(cased: bool, a: Member, b: Member)
    requires a.value.Number? && Fold(cased, a.key) != Fold(cased, b.key)
    ensures MergedMembers(cased, [a, b], [a, Member(b.key, Null), Member(a.key, Null)]) == Some([])
  {
    NullsRemove(cased, a.key, b.key, b, a);
    var q, r := Member(b.key, Null), Member(a.key, Null);
    ReplacedNumber(cased, [a, b], a);
    hide Fold, MergedMembers;
    assert [a, q, r][1..] == [q, r];
    assert Find(cased, [a, b], a.key) == 0 && Without([a, b], 0) == [b];
    assert [b] + [a] == [b, a];
  }

  lemma ReplacedNumber(cased: bool, members: seq<Member>, a: Member)
    requires a.value.Number?
    ensures forall rest :: MergedMembers(cased, members, [a] + rest)
                        == MergedMembers(cased, RemoveKey(cased, members, a.key) + [a], rest)
  {
    DuplicateExact(a.value, 0);
    hide DuplicateAt, RemoveKey;
    forall rest ensures ([a] + rest)[1..] == rest {
    }
  }

  lemma SortedBack(x: Member, y: Member)
    requires Lex(x.key, y.key) < 0
    ensures SortMembers(true, [x, y]) == [x, y]
    ensures forall cased, m :: SortMembers(cased, [m]) == [m]
    ensures Order(false, x.key, y.key) >= 0 ==> SortMembers(false, [x, y]) == [y, x]
  {
    hide Lex, Height, Fold;
    FoldCase(x.key);
    FoldCase(y.key);
    var s := [x, y];
    assert Before(MemberKey, true, s[0], s[0 + 1]);
    if Order(false, x.key, y.key) >= 0 {
      assert !Before(MemberKey, false, s[0], s[0 + 1]);
      var a, b := s[..1], s[1..];
      assert a == [x] && b == [y] && b[1..] == [];
      assert Sort(MemberKey, false, a) == a && Sort(MemberKey, false, b) == b;
      assert Merge(MemberKey, false, a, []) == a;
      assert Merge(MemberKey, false, a, b) == [y] + Merge(MemberKey, false, a, []);
      assert Sort(MemberKey, false, s) == Merge(MemberKey, false, a, b);
    }
  }

  lemma GeneratedPair(x: Member, y: Member)
    requires Lex(x.key, y.key) < 0 && Order(false, x.key, y.key) >= 0 && x.value.Number?
    ensures Generated(false, Object([x, y]), Object([x])) == Some(Object([x, Member(y.key, Null), Member(x.key, Null)]))
  {
    SortedBack(x, y);
    var bound := Height(Object([x]));
    MemberHeight([x], x);
    WalkBack(false, x, y, bound);
    hide SortMembers, GeneratedMembers, Lex, Order, Height;
    GeneratedObjects(false, Object([x, y]), Object([x]));
  }

  lemma MergedPair(cased: bool, x: Member, y: Member)
    requires x.value.Number? && Fold(cased, x.key) != Fold(cased, y.key)
    ensures Merged(cased, Some(Object([x, y])), Object([x, Member(y.key, Null), Member(x.key, Null)]))
      == Some(Object([]))
  {
    MergeBack(cased, x, y);
    hide MergedMembers, Fold;
  }

  lemma Broken(cased: bool, before: Json, after: Json, p: Json, r: Json)
    requires Height(before) <= CIRCULAR_LIMIT && Generated(cased, before, after) == Some(p)
    requires Merged(cased, Some(before), p) == Some(r) && Meaning(cased, r) != Meaning(cased, after)
    requires Expressible(Some(Meaning(true, before)), Meaning(true, after))
    ensures Duplicate(before) == Some(before) && !Restores(cased, before, after)
  {
    hide Height, Generated, Merged, Meaning, Expressible, Unique, DuplicateAt;
    DuplicateExact(before, 0);
  }

  lemma OneNumber(cased: bool, keys: iset<Str>, x: Member)
    requires x.value.Number?
    ensures var v := Object([x]);
      && Unique(cased, v) && Height(v) == 1 && Unique(cased, Object([])) && (x.key in keys ==> KeysIn(keys, v))
      && Meaning(cased, v) == VObject(map[Fold(cased, x.key) := VNumber(x.value.n)])
      && Meaning(cased, Object([])) != Meaning(cased, v)
      && forall w :: Expressible(w, Meaning(true, v))
  {
    assert Fold(cased, x.key) in map[Fold(cased, x.key) := VNumber(x.value.n)];
    assert [x][1..] == [] && HeightOfMembers([]) == 0 && HeightOfMembers([x]) == 1;
    assert forall c :: MeaningOf(c, [x]) == map[][Fold(c, x.key) := Meaning(c, x.value)];
  }

  lemma TwoNumbers(cased: bool, keys: iset<Str>, x: Member, y: Member)
    requires x.value.Number? && y.value.Number? && Fold(cased, x.key) != Fold(cased, y.key)
    requires x.key in keys && y.key in keys
    ensures var v := Object([x, y]); Unique(cased, v) && Height(v) == 1 && KeysIn(keys, v)
  {
    assert [x, y][1..] == [y] && [y][1..] == [];
    assert HeightOfMembers([]) == 0 && HeightOfMembers([y]) == 1 && HeightOfMembers([x, y]) == 1;
  }

  /** {a:1,b:2} never becomes {a:1} if `strcmp` puts `a` first and the order without case `b`. */
  lemma OrderBreaks(keys: iset<Str>, a: Str, b: Str)
    requires a in keys && b in keys && Lex(a, b) < 0 && Order(false, a, b) > 0
    ensures var x, y := Member(a, Number(1)), Member(b, Number(2));
      var before, after := Object([x, y]), Object([x]);
      && Generated(false, before, after) == Some(Object([x, Member(b, Null), Member(a, Null)]))
      && Merged(false, Duplicate(before), Generated(false, before, after).value) == Some(Object([]))
      && Mergeable(false, keys, before, after) && !Restores(false, before, after)
  {
    var x, y := Member(a, Number(1)), Member(b, Number(2));
    OrderTotal(false, a, b);
    hide SortMembers, GeneratedMembers, MergedMembers, DuplicateAt, Height, Unique, Meaning, Expressible,
      KeysIn, Lex, Fold, KeysSuit, Generated, Merged, Restores;
    var u, w := Object([x, y]), Object([x]);
    OneNumber(false, keys, x);
    TwoNumbers(false, keys, x, y);
    GeneratedPair(x, y);
    MergedPair(false, x, y);
    KeysOfSuited(keys, u);
    KeysOfSuited(keys, w);
    Broken(false, u, w, Object([x, Member(b, Null), Member(a, Null)]), Object([]));
  }

  /** {b:2} never becomes {a:1} if both keys match up to case. */
  lemma CaseClashBreaks(keys: iset<Str>, a: Str, b: Str)
    requires a in keys && b in keys && Lex(a, b) < 0 && Order(false, a, b) == 0
    ensures var x, y := Member(a, Number(1)), Member(b, Number(2));
      var before, after := Object([y]), Object([x]);
      && Generated(false, before, after) == Some(Object([x, Member(b, Null)]))
      && Merged(false, Duplicate(before), Generated(false, before, after).value) == Some(Object([]))
      && Mergeable(false, keys, before, after) && !Restores(false, before, after)
  {
    var x, y := Member(a, Number(1)), Member(b, Number(2));
    hide SortMembers, GeneratedMembers, MergedMembers, DuplicateAt, Height, Unique, Meaning, Expressible,
      KeysIn, Lex, Fold, KeysSuit, Generated, Merged, Restores;
    var u, w := Object([y]), Object([x]);
    OneNumber(false, keys, x);
    OneNumber(false, keys, y);
    GeneratedClash(x, y);
    KeysOfSuited(keys, u);
    KeysOfSuited(keys, w);
    Broken(false, u, w, Object([x, Member(b, Null)]), Object([]));
  }

  lemma GeneratedClash(x: Member, y: Member)
    requires Lex(x.key, y.key) < 0 && Order(false, x.key, y.key) == 0 && x.value.Number?
    ensures var p := Object([x, Member(y.key, Null)]);
      && Generated(false, Object([y]), Object([x])) == Some(p)
      && Merged(false, Some(Object([y])), p) == Some(Object([]))
  {
    hide *;
    SortedBack(x, y);
    var bound := Height(Object([x]));
    MemberHeight([x], x);
    WalkBack(false, x, y, bound);
    GeneratedObjects(false, Object([y]), Object([x]));
    MergedClash(x, y);
  }

  lemma MergedClash(x: Member, y: Member)
    requires Order(false, x.key, y.key) == 0 && x.value.Number?
    ensures Merged(false, Some(Object([y])), Object([x, Member(y.key, Null)])) == Some(Object([]))
  {
    OrderTotal(false, x.key, y.key);
    NullsRemove(false, x.key, y.key, y, x);
    ReplacedNumber(false, [y], x);
    hide MergedMembers, Lex, Order, Fold;
    var q := Member(y.key, Null);
    assert [x, q] == [x] + [q];
    assert Find(false, [y], x.key) == 0 && Without([y], 0) == [] && [] + [x] == [x];
  }

  /** The case-sensitive variant breaks one level below. */
  lemma BelowBreaks(keys: iset<Str>, a: Str, b: Str)
    requires a in keys && b in keys && Lex(a, b) < 0 && Order(false, a, b) >= 0
    ensures var x, y := Member(a, Number(1)), Member(b, Number(2));
      var before, after := Object([Member([], Object([x, y]))]), Object([Member([], Object([x]))]);
      && Generated(true, before, after) == Some(Object([Member([], Object([x, Member(b, Null), Member(a, Null)]))]))
      && Merged(true, Duplicate(before), Generated(true, before, after).value) == Some(Object([Member([], Object([]))]))
      && Mergeable(true, keys, before, after) && !Restores(true, before, after)
  {
    var x, y := Member(a, Number(1)), Member(b, Number(2));
    LexTotal(a, b);
    FoldCase(a);
    FoldCase(b);
    hide SortMembers, GeneratedMembers, MergedMembers, DuplicateAt, Height, Unique, Meaning, Expressible,
      KeysIn, Lex, Fold, Generated, Merged, Restores, CompareJson;
    var u, w, p := Object([x, y]), Object([x]), Object([x, Member(b, Null), Member(a, Null)]);
    OneNumber(true, keys, x);
    TwoNumbers(true, keys, x, y);
    GeneratedPair(x, y);
    MergedPair(true, x, y);
    ComparedDiffer(x, y);
    WalkBelow(u, w, p);
    MergeBelow(u, p);
    MeaningBelow(u);
    MeaningBelow(w);
    MeaningBelow(Object([]));
    ExpressibleBelow(Some(Meaning(true, Object([Member([], u)]))), Meaning(true, w));
    var m, n := Object([Member([], u)]), Object([Member([], w)]);
    var top: Str := [];
    assert map[top := Meaning(true, w)][top] != map[top := Meaning(true, Object([]))][top];
    Broken(true, m, n, Object([Member([], p)]), Object([Member([], Object([]))]));
  }

  lemma ComparedDiffer(x: Member, y: Member)
    requires x.value.Number? && Lex(x.key, y.key) < 0
    ensures CompareJson(true, Object([x, y]), Object([x])) == Outcome(false, Object([x, y]), Object([x]))
  {
    SortedBack(x, y);
    LexTotal(Fold(true, x.key), Fold(true, x.key));
    hide SortMembers, Lex, Height, Fold;
    assert [x, y][1..] == [y] && [x][1..] == [];
    var bound := Height(Object([x, y]));
    MemberHeight([x, y], x);
    MemberHeight([x, y], y);
    assert CompareMembers(true, [y], [], bound) == MembersOutcome(false, [y], []);
    assert CompareMembers(true, [x, y], [x], bound) == MembersOutcome(false, [x] + [y], [x] + []);
    assert [x] + [y] == [x, y] && [x] + [] == [x];
  }

  lemma WalkBelow(u: Json, w: Json, p: Json)
    requires CompareJson(true, u, w) == Outcome(false, u, w) && Generated(false, u, w) == Some(p)
    ensures var before, after := Object([Member([], u)]), Object([Member([], w)]);
      Generated(true, before, after) == Some(Object([Member([], p)]))
  {
    var m, n := Member([], u), Member([], w);
    var bound := Height(Object([n]));
    assert SortMembers(true, [m]) == [m] && SortMembers(true, [n]) == [n];
    assert [m][1..] == [] && [n][1..] == [];
    MemberHeight([n], n);
    hide CompareJson, Height, SortMembers;
    assert GeneratedMembers(true, [], [], bound) == [];
    assert GeneratedMembers(true, [m], [n], bound) == [Member([], p)];
    GeneratedObjects(true, Object([m]), Object([n]));
  }

  lemma MergeBelow(u: Json, p: Json)
    requires p.Object? && Merged(true, Some(u), p) == Some(Object([]))
    ensures Merged(true, Some(Object([Member([], u)])), Object([Member([], p)]))
      == Some(Object([Member([], Object([]))]))
  {
    var m, q := Member([], u), Member([], p);
    assert [m][1..] == [] && [q][1..] == [];
    assert Find(true, [m], []) == 0 && Without([m], 0) == [];
    assert MergedMembers(true, [Member([], Object([]))], []) == Some([Member([], Object([]))]);
    assert [] + [Member([], Object([]))] == [Member([], Object([]))];
  }

  lemma MeaningBelow(v: Json)
    requires Unique(true, v)
    ensures var o := Object([Member([], v)]);
      && Unique(true, o) && Height(o) == Height(v) + 1
      && Meaning(true, o) == VObject(map[[] := Meaning(true, v)])
  {
    var m := Member([], v);
    assert [m][1..] == [] && HeightOfMembers([]) == 0 && HeightOfMembers([m]) == Height(v) + 1;
    assert MeaningOf(true, [m]) == map[][[] := Meaning(true, v)];
  }

  lemma ExpressibleBelow(before: Option<Value>, v: Value)
    requires v != VNull && forall w :: Expressible(w, v)
    ensures Expressible(before, VObject(map[[] := v]))
  {
  }
}
