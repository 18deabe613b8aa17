/** What applying a patch means: the operations of section 4 of RFC 6902 on objects as maps. */
module PatchMeaning {
  import opened Prelude
  import opened Json
  import opened Pointer
  import opened PatchApply

  // ----- which keys and tokens are meant -----

  /** Decoding the escaped key in place gives the key back; `InPlaceUndoesExactly` says which keys these are. */
  predicate Decodes(k: Str) {
    InPlace(Encode(k)) == k
  }

  /** The key "a~" is decoded to itself, "~a" and "a/b" are not. */
  lemma SomeKeysDecode()
    ensures Decodes([97, 126]) && !Decodes([126, 97]) && !Decodes([97, 47, 98])
  {
    EncodeAround([97, 126], 1);
    EncodeAround([126, 97], 0);
    EncodeLaws([97]);
    EncodeNothing([]);
    InPlaceUndoesExactly([97, 126]);
    InPlaceUndoesExactly([126, 97]);
    InPlaceUndoesExactly([97, 47, 98]);
  }

  ghost predicate CStrings(keys: iset<Str>) {
    forall k | k in keys :: NulFree(k)
  }

  /** Patches work on such keys; `detach_path` ignores case even in the case-sensitive variant. */
  ghost predicate Suitable(cased: bool, keys: iset<Str>) {
    (forall k | k in keys :: NulFree(k) && Decodes(k)) && (cased ==> CaseDistinct(keys))
  }

  ghost predicate Good(cased: bool, keys: iset<Str>, v: Json) {
    Unique(cased, v) && KeysIn(keys, v)
  }

  ghost predicate GoodMembers(cased: bool, keys: iset<Str>, members: seq<Member>) {
    DistinctKeys(cased, members) && UniqueValues(cased, members) && KeysOf(keys, members)
  }

  lemma GoodObject(cased: bool, keys: iset<Str>, members: seq<Member>)
    ensures Good(cased, keys, Object(members)) <==> GoodMembers(cased, keys, members)
    ensures Meaning(cased, Object(members)) == VObject(MeaningOf(cased, members))
  {
    hide MeaningOf;
  }

  // ----- one token -----

  lemma {:induction false} ArrayIndexOfToken(t: Str, rest: Str)
    requires SLASH !in t && NulFree(t) && (rest == [] || rest[0] == SLASH)
    ensures ArrayIndex(t + rest) == ArrayIndex(t)
  {
    var p := t + rest;
    if t != [] {
      var end := RunEnd(t, 0);
      assert forall k | 0 <= k < |t| :: p[k] == t[k];
      assert |p| > |t| ==> p[|t|] == rest[0];
      RunCovers(p, 0, end);
      assert p[..end] == t[..end] && p[..0] == t[..0];
    } else {
      assert p == rest;
      assert rest[..0] == t[..0];
    }
  }

  lemma EscapedToken(cased: bool, name: Str, t: Str, rest: Str)
    requires rest == [] || rest[0] == SLASH
    ensures Matches(cased, name, Encode(t) + rest) <==> Fold(cased, name) == Fold(cased, t)
  {
    hide Matches, Fold, Encode, Unescape, Token, Rest;
    EncodeLaws(t);
    TokenOfToken(Encode(t), rest);
    MatchesExactly(cased, name, Encode(t) + rest);
  }

  /** The child an escaped token leads to does not depend on what follows, and is found by key. */
  lemma StepOfToken(cased: bool, v: Json, t: Str, rest: Str)
    requires NulFree(t) && (rest == [] || rest[0] == SLASH)
    ensures Step(cased, v, Encode(t) + rest) == Step(cased, v, Encode(t))
    ensures v.Object? ==>
      var k := Find(cased, v.members, t);
      Step(cased, v, Encode(t)) == if k < |v.members| then Some(k) else None
  {
    EncodeLaws(t);
    hide Encode;
    var e := Encode(t);
    match v
    case Array(items) => ArrayIndexOfToken(e, rest);
    case Object(members) =>
      assert e + [] == e;
      forall i | 0 <= i < |members|
        ensures Matches(cased, members[i].key, e + rest) <==> Fold(cased, members[i].key) == Fold(cased, t)
        ensures Matches(cased, members[i].key, e) <==> Fold(cased, members[i].key) == Fold(cased, t)
      {
        EscapedToken(cased, members[i].key, t, rest);
        EscapedToken(cased, members[i].key, t, []);
      }
      hide Matches, Fold;
      FirstsAgree(cased, members, t, e + rest);
      FirstsAgree(cased, members, t, e);
    case _ =>
  }

  lemma {:induction false} FirstsAgree(cased: bool, members: seq<Member>, t: Str, pointer: Str)
    requires forall i | 0 <= i < |members| ::
      Matches(cased, members[i].key, pointer) <==> Fold(cased, members[i].key) == Fold(cased, t)
    ensures FindMatch(cased, members, pointer) == Find(cased, members, t)
  {
    hide Matches, Fold;
    if members != [] {
      FirstsAgree(cased, members[1..], t, pointer);
    }
  }

  // ----- paths -----

  /** The JSON pointer that a sequence of reference tokens stands for. */
  function Path(tokens: seq<Str>): Str {
    if tokens == [] then [] else [SLASH] + Encode(tokens[0]) + Path(tokens[1..])
  }

  lemma {:induction false} LastSlashOfTail(a: Str, b: Str)
    requires LastSlash(b).Some?
    ensures LastSlash(a + b) == Some(|a| + LastSlash(b).value)
  {
    var s := a + b;
    assert s[|s| - 1] == b[|b| - 1];
    if b[|b| - 1] != SLASH {
      assert s[..|s| - 1] == a + b[..|b| - 1];
      LastSlashOfTail(a, b[..|b| - 1]);
    }
  }

  lemma {:induction false} LastSlashOfToken(t: Str)
    requires SLASH !in t
    ensures LastSlash([SLASH] + t) == Some(0)
  {
    var s := [SLASH] + t;
    if t != [] {
      assert s[|s| - 1] == t[|t| - 1] && t[|t| - 1] in t;
      assert s[..|s| - 1] == [SLASH] + t[..|t| - 1];
      LastSlashOfToken(t[..|t| - 1]);
    }
  }

  lemma {:induction false} HasSlash(sub: Str)
    requires sub != [] && sub[0] == SLASH
    ensures LastSlash(sub).Some?
  {
    if sub[|sub| - 1] != SLASH {
      HasSlash(sub[..|sub| - 1]);
    }
  }

  /** A path below a child splits where the rest splits. */
  lemma SplitAt(a: Str, b: Str, n: nat)
    requires LastSlash(b).Some? && n == |a|
    ensures LastSlash(a + b) == Some(n + LastSlash(b).value)
  {
    LastSlashOfTail(a, b);
  }

  lemma SlicesBelow(t: Str, sub: Str, s: nat)
    requires sub != [] && sub[0] == SLASH && s < |sub|
    ensures var path, k := [SLASH] + t + sub, 1 + |t| + s;
      && path[..k] == [SLASH] + t + sub[..s] && path[k + 1..] == sub[s + 1..]
      && (sub[..s] == [] || sub[..s][0] == SLASH)
  {
    var path, k := [SLASH] + t + sub, 1 + |t| + s;
    assert path[..k] == [SLASH] + t + sub[..s];
  }

  lemma ResolveBelow(cased: bool, v: Json, t: Str, p: Str)
    requires NulFree(t) && (p == [] || p[0] == SLASH)
    ensures Resolve(cased, v, [SLASH] + Encode(t) + p)
         == var k := Step(cased, v, Encode(t));
            if k.None? then None else Prefixed([k.value], Resolve(cased, Child(v, k.value), p))
  {
    hide Step, Resolve, Rest, Encode;
    EncodeLaws(t);
    var pointer := [SLASH] + Encode(t) + p;
    assert pointer[1..] == Encode(t) + p;
    ResolveStep(cased, v, pointer);
    StepOfToken(cased, v, t, p);
    TokenOfToken(Encode(t), p);
  }

  lemma PutBelow(v: Json, k: nat, position: seq<nat>, w: Json)
    requires k < Count(v) && NodeAt(Child(v, k), position).Some?
    ensures NodeAt(v, [k] + position) == NodeAt(Child(v, k), position) && NodeAt(v, [k]).Some?
    ensures Put(v, [k] + position, w) == Put(v, [k], Put(Child(v, k), position, w))
  {
    assert ([k] + position)[1..] == position && [k][1..] == [];
  }

  lemma NodeBelow(v: Json, k: nat)
    requires k < Count(v)
    ensures NodeAt(v, [k]) == Some(Child(v, k))
  {
    assert [k][1..] == [];
  }

  lemma DetachBelow(cased: bool, v: Json, t: Str, sub: Str)
    requires NulFree(t) && sub != [] && sub[0] == SLASH
    ensures var k := Step(cased, v, Encode(t));
      && (k.Some? ==> NodeAt(v, [k.value]).Some?)
      && DetachPath(cased, v, [SLASH] + Encode(t) + sub)
         == if k.None? then None
            else
              var c := DetachPath(cased, Child(v, k.value), sub);
              if c.None? then None else Some(Put(v, [k.value], c.value))
  {
    hide Step, Resolve, InPlace, Detached, LastSlash, NodeAt, Put, Child, Encode;
    EncodeLaws(t);
    HasSlash(sub);
    SplitAt([SLASH] + Encode(t), sub, 1 + |Encode(t)|);
    SlicesBelow(Encode(t), sub, LastSlash(sub).value);
    var p := sub[..LastSlash(sub).value];
    ResolveBelow(cased, v, t, p);
    var k := Step(cased, v, Encode(t));
    if k.Some? {
      NodeBelow(v, k.value);
      var position := Resolve(cased, Child(v, k.value), p);
      if position.Some? {
        PutBelow(v, k.value, position.value, Null);
        var parent := Detached(NodeAt(Child(v, k.value), position.value).value,
            InPlace(sub[LastSlash(sub).value + 1..]));
        if parent.Some? {
          PutBelow(v, k.value, position.value, parent.value);
        }
      }
    }
  }

  lemma AttachBelow(cased: bool, v: Json, t: Str, sub: Str, value: Json)
    requires NulFree(t) && sub != [] && sub[0] == SLASH
    ensures var k := Step(cased, v, Encode(t));
      && (k.Some? ==> NodeAt(v, [k.value]).Some?)
      && AttachPath(cased, v, [SLASH] + Encode(t) + sub, value)
         == if k.None? then Applied(9, v)
            else
              var r := AttachPath(cased, Child(v, k.value), sub, value);
              Applied(r.status, Put(v, [k.value], r.tree))
  {
    hide Step, Resolve, InPlace, Attached, LastSlash, NodeAt, Put, Child, Encode;
    EncodeLaws(t);
    HasSlash(sub);
    SplitAt([SLASH] + Encode(t), sub, 1 + |Encode(t)|);
    SlicesBelow(Encode(t), sub, LastSlash(sub).value);
    var p := sub[..LastSlash(sub).value];
    ResolveBelow(cased, v, t, p);
    var k := Step(cased, v, Encode(t));
    if k.Some? {
      NodeBelow(v, k.value);
      var c := Child(v, k.value);
      var position := Resolve(cased, c, p);
      if position.Some? {
        PutBelow(v, k.value, position.value, Null);
        var r := Attached(cased, NodeAt(c, position.value).value, InPlace(sub[LastSlash(sub).value + 1..]), value);
        PutBelow(v, k.value, position.value, r.tree);
      } else {
        PutItself(v, k.value);
      }
    }
  }

  lemma PutItself(v: Json, k: nat)
    requires k < Count(v) && NodeAt(v, [k]).Some?
    ensures Put(v, [k], Child(v, k)) == v
  {
    assert [k][1..] == [];
    if v.Array? {
      assert v.items[k := v.items[k]] == v.items;
    } else {
      var m := v.members[k];
      assert Member(m.key, m.value) == m;
      assert v.members[k := m] == v.members;
    }
  }

  // ----- one change of a parent -----

  lemma {:induction false} MembersPut(cased: bool, members: seq<Member>, k: nat, c: Json)
    requires DistinctKeys(cased, members) && k < |members|
    ensures var m := members[k := Member(members[k].key, c)];
      && DistinctKeys(cased, m)
      && MeaningOf(cased, m) == MeaningOf(cased, members)[Fold(cased, members[k].key) := Meaning(cased, c)]
  {
    hide Meaning, Fold;
    var m := members[k := Member(members[k].key, c)];
    var f, g := Fold(cased, members[0].key), Fold(cased, members[k].key);
    if k == 0 {
      assert m[1..] == members[1..];
    } else {
      assert m[1..] == members[1..][k - 1 := Member(members[1..][k - 1].key, c)];
      MembersPut(cased, members[1..], k - 1, c);
      assert f != g;
      hide MeaningOf;
      MapUpdatesSwap(MeaningOf(cased, members[1..]), g, Meaning(cased, c), f, Meaning(cased, members[0].value));
      forall i, j | 0 <= i < j < |m| ensures Fold(cased, m[i].key) != Fold(cased, m[j].key) {
        assert m[i].key == members[i].key && m[j].key == members[j].key;
      }
    }
  }

  /** Changing a child changes what the tree means at that child only. */
  lemma PutMeaning(cased: bool, keys: iset<Str>, v: Json, k: nat, c: Json)
    requires Good(cased, keys, v) && Good(cased, keys, c) && k < Count(v)
    ensures NodeAt(v, [k]).Some? && Good(cased, keys, Put(v, [k], c))
    ensures Good(cased, keys, Child(v, k))
    ensures v.Array? ==>
      var a := Meaning(cased, v).items;
      k < |a| && a[k] == Meaning(cased, Child(v, k))
      && Meaning(cased, Put(v, [k], c)) == VArray(a[k := Meaning(cased, c)])
    ensures v.Object? ==>
      var m, f := Meaning(cased, v).members, Fold(cased, v.members[k].key);
      f in m && m[f] == Meaning(cased, Child(v, k))
      && Meaning(cased, Put(v, [k], c)) == VObject(m[f := Meaning(cased, c)])
  {
    assert [k][1..] == [];
    if v.Array? {
      var items := v.items;
      assert Put(v, [k], c) == Array(items[k := c]);
      ArrayPut(cased, keys, items, k, c);
    } else {
      assert Put(v, [k], c) == Object(v.members[k := Member(v.members[k].key, c)]);
      hide Meaning, MeaningOf, Fold, Put, Good;
      ObjectPut(cased, keys, v.members, k, c);
      GoodObject(cased, keys, v.members);
    }
  }

  lemma ObjectPut(cased: bool, keys: iset<Str>, members: seq<Member>, k: nat, c: Json)
    requires Good(cased, keys, Object(members)) && Good(cased, keys, c)
    requires k < |members|
    ensures Good(cased, keys, members[k].value)
    ensures Good(cased, keys, Object(members[k := Member(members[k].key, c)]))
    ensures var m, f := MeaningOf(cased, members), Fold(cased, members[k].key);
      f in m && m[f] == Meaning(cased, members[k].value)
      && Meaning(cased, Object(members[k := Member(members[k].key, c)])) == VObject(m[f := Meaning(cased, c)])
  {
    var m := members[k := Member(members[k].key, c)];
    GoodObject(cased, keys, members);
    GoodObject(cased, keys, m);
    hide Meaning, MeaningOf, Fold;
    MembersPut(cased, members, k, c);
    MeaningOfMember(cased, members, k);
    assert GoodMembers(cased, keys, m);
  }

  lemma ArrayPut(cased: bool, keys: iset<Str>, items: seq<Json>, k: nat, c: Json)
    requires Good(cased, keys, Array(items)) && Good(cased, keys, c)
    requires k < |items|
    ensures Good(cased, keys, Array(items[k := c]))
    ensures var a := Meaning(cased, Array(items)).items;
      && |a| == |items| && a[k] == Meaning(cased, items[k])
      && Meaning(cased, Array(items[k := c])) == VArray(a[k := Meaning(cased, c)])
  {
    var a, b := Meaning(cased, Array(items)).items, Meaning(cased, Array(items[k := c])).items;
    assert b == a[k := Meaning(cased, c)];
  }

  lemma ArrayWithout(cased: bool, keys: iset<Str>, items: seq<Json>, k: nat)
    requires Good(cased, keys, Array(items)) && k < |items|
    ensures Good(cased, keys, Array(Without(items, k)))
    ensures var a := Meaning(cased, Array(items)).items;
      |a| == |items| && Meaning(cased, Array(Without(items, k))) == VArray(Without(a, k))
  {
    var r := Without(items, k);
    forall i | 0 <= i < |r| ensures r[i] == items[if i < k then i else i + 1] {
    }
    var a, b := Meaning(cased, Array(items)).items, Meaning(cased, Array(r)).items;
    forall i | 0 <= i < |r| ensures b[i] == Without(a, k)[i] {
    }
    assert b == Without(a, k);
  }

  lemma ArrayWith(cased: bool, keys: iset<Str>, items: seq<Json>, k: nat, c: Json)
    requires Good(cased, keys, Array(items)) && Good(cased, keys, c)
    requires k <= |items|
    ensures Good(cased, keys, Array(With(items, k, c)))
    ensures var a := Meaning(cased, Array(items)).items;
      |a| == |items| && Meaning(cased, Array(With(items, k, c))) == VArray(With(a, k, Meaning(cased, c)))
  {
    var r := With(items, k, c);
    forall i | 0 <= i < |r| ensures r[i] == if i < k then items[i] else if i == k then c else items[i - 1] {
    }
    var a, b := Meaning(cased, Array(items)).items, Meaning(cased, Array(r)).items;
    var w := With(a, k, Meaning(cased, c));
    forall i | 0 <= i < |r| ensures b[i] == w[i] {
    }
    assert b == w;
  }

  /** No member before the one with exactly this key matches it up to case. */
  predicate NoEarlierMatch(members: seq<Member>, t: Str) {
    forall i | 0 <= i < Find(true, members, t) :: Fold(false, members[i].key) != Fold(false, t)
  }

  /** For all members and keys: the lookup without case finds what the lookup with case finds exactly then. */
  lemma CaseMattersExactly(members: seq<Member>, t: Str)
    ensures Find(false, members, t) == Find(true, members, t) <==> NoEarlierMatch(members, t)
  {
    var k := Find(true, members, t);
    FoldCase(t);
    if k < |members| {
      FoldCase(members[k].key);
    }
    hide Fold, Find;
  }

  /** What `detach_path` would leave of the parent if it told keys apart by case. */
  function DetachedCased(parent: Json, child: Str): Option<Json> {
    if parent.Object? then
      var k := Find(true, parent.members, child);
      if k < |parent.members| then Some(Object(Without(parent.members, k))) else None
    else Detached(parent, child)
  }

  predicate RightOfCase(parent: Json, child: Str) {
    parent.Object? ==> NoEarlierMatch(parent.members, child)
  }

  lemma DetachedExactly(parent: Json, child: Str)
    ensures Detached(parent, child) == DetachedCased(parent, child) <==> RightOfCase(parent, child)
  {
    if parent.Object? {
      var members := parent.members;
      var i, k := Find(false, members, child), Find(true, members, child);
      CaseMattersExactly(members, child);
      FoldCase(child);
      if i < |members| {
        FoldCase(members[i].key);
      }
      if k < |members| {
        FoldCase(members[k].key);
        if i < k {
          FoldCase(members[k - 1].key);
          WithoutAt(members, i);
          WithoutAt(members, k);
          assert Without(members, i)[k - 1] == members[k] && Without(members, k)[k - 1] == members[k - 1];
        }
      }
      hide Fold, Find, Without, NoEarlierMatch;
    }
  }

  /** `detach_path` with keys told apart by case. */
  function DetachPathCased(v: Json, path: Str): Option<Json> {
    var place := PlaceOf(v, path);
    if place.None? then None
    else
      var parent := DetachedCased(place.value.parent, place.value.child);
      if parent.None? then None else Some(Put(v, place.value.position, parent.value))
  }

  /** The parent a path leads to, and the child it names there. */
  datatype Place = Place(position: seq<nat>, parent: Json, child: Str)

  function PlaceOf(v: Json, path: Str): (p: Option<Place>)
    ensures p.Some? ==> NodeAt(v, p.value.position) == Some(p.value.parent)
  {
    var k := LastSlash(path);
    if k.None? then None
    else
      var position := Resolve(true, v, path[..k.value]);
      if position.None? then None
      else Some(Place(position.value, NodeAt(v, position.value).value, InPlace(path[k.value + 1..])))
  }

  lemma {:induction false} PutInjective(v: Json, position: seq<nat>, a: Json, b: Json)
    requires NodeAt(v, position).Some?
    ensures Put(v, position, a) == Put(v, position, b) <==> a == b
    decreases position
  {
    if position != [] {
      var k := position[0];
      PutInjective(Child(v, k), position[1..], a, b);
      var c, d := Put(Child(v, k), position[1..], a), Put(Child(v, k), position[1..], b);
      if v.Array? {
        assert v.items[k := c][k] == c && v.items[k := d][k] == d;
      } else {
        var key := v.members[k].key;
        assert v.members[k := Member(key, c)][k].value == c && v.members[k := Member(key, d)][k].value == d;
      }
    }
  }

  /**
   The case-sensitive `detach_path` removes what its path names exactly if no member before the named
   one, or no member at all if there is none, matches its key up to case.
   */
  lemma DetachPathExactly(v: Json, path: Str)
    ensures var place := PlaceOf(v, path);
      DetachPath(true, v, path) == DetachPathCased(v, path)
      <==> place.None? || RightOfCase(place.value.parent, place.value.child)
  {
    hide Resolve, InPlace, Detached, DetachedCased, LastSlash, NodeAt, Put, RightOfCase;
    var place := PlaceOf(v, path);
    if place.Some? {
      var parent, child := place.value.parent, place.value.child;
      DetachedExactly(parent, child);
      var a, b := Detached(parent, child), DetachedCased(parent, child);
      if a.Some? && b.Some? {
        PutInjective(v, place.value.position, a.value, b.value);
      }
    }
  }

  /** What the code reads for a token of a location: for an array it is decoded as RFC 6901 says. */
  ghost predicate Fits(v: Json, read: Str, t: Str) {
    v.Array? ==> ArrayIndex(read) == RfcIndex(t)
  }

  lemma DetachedMeaning(cased: bool, keys: iset<Str>, v: Json, t: Str, value: Value)
    requires Good(cased, keys, v) && Suitable(cased, keys) && t in keys
    requires Fits(v, t, t)
    ensures var d, r := Detached(v, InPlace(Encode(t))), RfcTarget(cased, Meaning(cased, v), Kind.Remove, t, value);
      && (d.Some? <==> r.Some?)
      && (d.Some? ==> Good(cased, keys, d.value) && Meaning(cased, d.value) == r.value)
  {
    hide InPlace, Encode, ArrayIndex, RfcIndex, Fold;
    assert Decodes(t);
    match v
    case Array(items) =>
      hide Meaning, Good;
      ArrayMeaning(cased, items);
      if ArrayIndex(t).Some? && ArrayIndex(t).value < |items| {
        ArrayWithout(cased, keys, items, ArrayIndex(t).value);
      }
    case Object(members) =>
      GoodObject(cased, keys, members);
      ObjectDetached(cased, keys, members, t);
    case _ =>
  }

  lemma ArrayMeaning(cased: bool, items: seq<Json>)
    ensures var m := Meaning(cased, Array(items)); m.VArray? && |m.items| == |items|
  {
  }

  lemma ObjectDetached(cased: bool, keys: iset<Str>, members: seq<Member>, t: Str)
    requires GoodMembers(cased, keys, members) && Suitable(cased, keys)
    requires t in keys
    ensures var k, m, f := Find(false, members, t), MeaningOf(cased, members), Fold(cased, t);
      && (k < |members| <==> f in m)
      && (k < |members| ==>
            var w := Object(Without(members, k));
            Good(cased, keys, w) && Meaning(cased, w) == VObject(m - {f}))
  {
    hide Meaning, MeaningOf, Fold, Unique, KeysIn, Find;
    var k := Find(false, members, t);
    if cased {
      CaseDoesNotMatter(keys, members, t);
    }
    MeaningAt(cased, members, t);
    RemoveMeaning(cased, members, t);
    if k < |members| {
      var r := Without(members, k);
      KeysWithout(keys, members, k);
      GoodObject(cased, keys, r);
    }
  }

  lemma ObjectAttached(cased: bool, keys: iset<Str>, members: seq<Member>, t: Str, value: Json)
    requires GoodMembers(cased, keys, members) && Good(cased, keys, value)
    requires t in keys
    ensures var w := Object(RemoveKey(cased, members, t) + [Member(t, value)]);
      && Good(cased, keys, w)
      && Meaning(cased, w) == VObject(MeaningOf(cased, members)[Fold(cased, t) := Meaning(cased, value)])
  {
    hide Meaning, MeaningOf, Fold, Unique, KeysIn, Without;
    RemoveMeaning(cased, members, t);
    var k := Find(cased, members, t);
    var others := RemoveKey(cased, members, t);
    if k < |members| {
      KeysWithout(keys, members, k);
    }
    hide RemoveKey;
    var added := Member(t, value);
    AppendDistinct(cased, others, added);
    AppendMeaning(cased, others, added);
    GoodObject(cased, keys, others + [added]);
  }

  lemma AttachedMeaning(cased: bool, keys: iset<Str>, v: Json, t: Str, value: Json)
    requires Good(cased, keys, v) && Suitable(cased, keys) && t in keys
    requires Fits(v, t, t) && Good(cased, keys, value)
    ensures var a := Attached(cased, v, InPlace(Encode(t)), value);
      var r := RfcTarget(cased, Meaning(cased, v), Kind.Add, t, Meaning(cased, value));
      && (a.status == 0 <==> r.Some?)
      && (r.Some? ==> Good(cased, keys, a.tree) && Meaning(cased, a.tree) == r.value)
  {
    hide InPlace, Encode, ArrayIndex, RfcIndex, Fold;
    assert Decodes(t);
    match v
    case Array(items) =>
      hide Meaning, Good;
      ArrayMeaning(cased, items);
      if t == [45] {
        WithAtEnd(items, value);
        WithAtEnd(Meaning(cased, v).items, Meaning(cased, value));
        ArrayWith(cased, keys, items, |items|, value);
      } else if ArrayIndex(t).Some? && ArrayIndex(t).value <= |items| {
        ArrayWith(cased, keys, items, ArrayIndex(t).value, value);
      }
    case Object(members) =>
      GoodObject(cased, keys, members);
      ObjectAttached(cased, keys, members, t, value);
    case _ =>
  }

  // ----- a whole path -----

  /** Every token that meets an array on the way is decoded as RFC 6901 says. */
  ghost predicate Fitting(cased: bool, v: Value, tokens: seq<Str>)
    decreases |tokens|
  {
    tokens != [] ==>
      match v
      case VObject(m) =>
        var f := Fold(cased, tokens[0]);
        |tokens| > 1 && f in m ==> Fitting(cased, m[f], tokens[1..])
      case VArray(a) =>
        var index := RfcIndex(tokens[0]);
        && ArrayIndex(if |tokens| > 1 then Encode(tokens[0]) else tokens[0]) == index
        && (|tokens| > 1 && index.Some? && index.value < |a| ==> Fitting(cased, a[index.value], tokens[1..]))
      case _ => true
  }

  /** A location that RFC 6902 accepts fits. */
  lemma {:induction false} AcceptedFits(cased: bool, v: Value, kind: Kind, tokens: seq<Str>,
      value: Value)
    requires |tokens| > 0 && Rfc6902(cased, v, kind, tokens, value).Some?
    ensures Fitting(cased, v, tokens)
    decreases |tokens|
  {
    hide RfcIndex, ArrayIndex, Fold;
    DashNoIndex();
    if RfcIndex(tokens[0]).Some? {
      RfcIndexDecodes(tokens[0], []);
      assert tokens[0] + [] == tokens[0];
      IndexNotEscaped(tokens[0]);
    }
    if |tokens| > 1 {
      match v
      case VObject(m) => AcceptedFits(cased, m[Fold(cased, tokens[0])], kind, tokens[1..], value);
      case VArray(a) => AcceptedFits(cased, a[RfcIndex(tokens[0]).value], kind, tokens[1..], value);
    }
  }

  lemma IndexNotEscaped(t: Str)
    requires RfcIndex(t).Some?
    ensures Encode(t) == t
  {
    EncodeLaws(t);
  }

  lemma {:induction false} RemovalFits(cased: bool, v: Value, tokens: seq<Str>, value: Value)
    requires |tokens| > 0 && Fitting(cased, v, tokens)
    requires Rfc6902(cased, v, Kind.Remove, tokens, value).Some?
    ensures Fitting(cased, Rfc6902(cased, v, Kind.Remove, tokens, value).value, tokens)
    decreases |tokens|
  {
    hide RfcIndex, ArrayIndex, Fold;
    if |tokens| > 1 {
      match v
      case VObject(m) => RemovalFits(cased, m[Fold(cased, tokens[0])], tokens[1..], value);
      case VArray(a) => RemovalFits(cased, a[RfcIndex(tokens[0]).value], tokens[1..], value);
    }
  }

  /** The child a token leads to, seen in what the tree means. */
  lemma StepMeaning(cased: bool, keys: iset<Str>, v: Json, t: Str)
    requires Good(cased, keys, v) && Suitable(cased, keys) && t in keys
    requires Fits(v, Encode(t), t)
    ensures var k, w := Step(cased, v, Encode(t)), Meaning(cased, v);
      && (v.Object? ==> w.VObject? && (k.Some? <==> Fold(cased, t) in w.members))
      && (v.Object? && k.Some? ==> Fold(cased, v.members[k.value].key) == Fold(cased, t))
      && (v.Array? ==>
            && w.VArray? && |w.items| == |v.items|
            && k == if RfcIndex(t).Some? && RfcIndex(t).value < |v.items| then RfcIndex(t) else None)
      && (!v.Object? && !v.Array? ==> k.None? && !w.VObject? && !w.VArray?)
  {
    if v.Object? {
      hide Encode, Meaning, Fold, Unique, KeysIn, Step, MeaningOf;
      assert Encode(t) + [] == Encode(t);
      StepOfToken(cased, v, t, []);
      GoodObject(cased, keys, v.members);
      MeaningAt(cased, v.members, t);
    }
  }

  lemma PathOfTokens(tokens: seq<Str>)
    requires tokens != []
    ensures Path(tokens) == [SLASH] + Encode(tokens[0]) + Path(tokens[1..])
    ensures |tokens| > 1 ==> Path(tokens[1..]) != [] && Path(tokens[1..])[0] == SLASH
    ensures |tokens| == 1 ==> Path(tokens[1..]) == []
  {
  }

  lemma TargetPath(cased: bool, v: Json, t: Str)
    requires SLASH !in t
    ensures DetachPath(cased, v, [SLASH] + t) == Detached(v, InPlace(t))
    ensures forall value :: AttachPath(cased, v, [SLASH] + t, value) == Attached(cased, v, InPlace(t), value)
  {
    hide InPlace, Detached, Attached, LastSlash;
    LastSlashOfToken(t);
    var path := [SLASH] + t;
    assert path[..0] == [] && path[1..] == t;
  }

  /** An operation below a child succeeds exactly if it does in the child. */
  lemma ChildRfc(cased: bool, keys: iset<Str>, v: Json, kind: Kind, tokens: seq<Str>, value: Value)
    requires Good(cased, keys, v) && Suitable(cased, keys) && |tokens| > 1
    requires tokens[0] in keys
    requires Fitting(cased, Meaning(cased, v), tokens)
    ensures var k := Step(cased, v, Encode(tokens[0])); var r := Rfc6902(cased, Meaning(cased, v), kind, tokens, value);
      && (k.None? ==> r.None?)
      && (k.Some? ==>
            var w := Meaning(cased, Child(v, k.value));
            && Good(cased, keys, Child(v, k.value)) && Fitting(cased, w, tokens[1..])
            && (r.Some? <==> Rfc6902(cased, w, kind, tokens[1..], value).Some?))
  {
    var t := tokens[0];
    FitsHere(cased, v, tokens);
    hide Encode, Step, Good, Fold, RfcIndex, ArrayIndex, Put, Child, Meaning;
    StepMeaning(cased, keys, v, t);
    var k := Step(cased, v, Encode(t));
    if k.Some? {
      NullIsGood(cased, keys);
      PutMeaning(cased, keys, v, k.value, Null);
    }
  }

  /** What it makes of the child is what it makes of the whole. */
  lemma ChildPut(cased: bool, keys: iset<Str>, v: Json, kind: Kind, tokens: seq<Str>, value: Value,
      c: Json)
    requires Good(cased, keys, v) && Suitable(cased, keys) && |tokens| > 1
    requires tokens[0] in keys
    requires Fits(v, Encode(tokens[0]), tokens[0]) && Step(cased, v, Encode(tokens[0])).Some?
    requires Good(cased, keys, c)
    requires Rfc6902(cased, Meaning(cased, Child(v, Step(cased, v, Encode(tokens[0])).value)), kind, tokens[1..], value)
          == Some(Meaning(cased, c))
    ensures var k := Step(cased, v, Encode(tokens[0])).value;
      && NodeAt(v, [k]).Some? && Good(cased, keys, Put(v, [k], c))
      && Rfc6902(cased, Meaning(cased, v), kind, tokens, value) == Some(Meaning(cased, Put(v, [k], c)))
  {
    hide *;
    var t := tokens[0];
    var k := Step(cased, v, Encode(t)).value;
    StepBelow(cased, v, Encode(t));
    StepMeaning(cased, keys, v, t);
    PutMeaning(cased, keys, v, k, c);
    if v.Object? {
      RfcBelowMember(cased, Meaning(cased, v), kind, tokens, value);
    } else {
      RfcBelowItem(cased, Meaning(cased, v), kind, tokens, value);
    }
  }

  lemma StepBelow(cased: bool, v: Json, pointer: Str)
    ensures Step(cased, v, pointer).Some? ==> Step(cased, v, pointer).value < Count(v) && (v.Object? || v.Array?)
  {
    hide FindMatch, ArrayIndex;
  }

  lemma RfcBelowMember(cased: bool, v: Value, kind: Kind, tokens: seq<Str>, value: Value)
    requires |tokens| > 1 && v.VObject? && Fold(cased, tokens[0]) in v.members
    ensures var f := Fold(cased, tokens[0]);
      var r := Rfc6902(cased, v.members[f], kind, tokens[1..], value);
      Rfc6902(cased, v, kind, tokens, value) == if r.None? then None else Some(VObject(v.members[f := r.value]))
  {
    hide Fold, RfcIndex;
  }

  lemma RfcBelowItem(cased: bool, v: Value, kind: Kind, tokens: seq<Str>, value: Value)
    requires |tokens| > 1 && v.VArray? && RfcIndex(tokens[0]).Some? && RfcIndex(tokens[0]).value < |v.items|
    ensures var k := RfcIndex(tokens[0]).value;
      var r := Rfc6902(cased, v.items[k], kind, tokens[1..], value);
      Rfc6902(cased, v, kind, tokens, value) == if r.None? then None else Some(VArray(v.items[k := r.value]))
  {
    hide Fold, RfcIndex;
  }

  /** `detach_path` removes what RFC 6902 removes. */
  lemma {:induction false} DetachIsRemove(cased: bool, keys: iset<Str>, v: Json, tokens: seq<Str>,
      value: Value)
    requires Good(cased, keys, v) && Suitable(cased, keys) && tokens != []
    requires forall t | t in tokens :: t in keys
    requires Fitting(cased, Meaning(cased, v), tokens)
    ensures var d := DetachPath(cased, v, Path(tokens));
      var r := Rfc6902(cased, Meaning(cased, v), Kind.Remove, tokens, value);
      && (d.Some? <==> r.Some?)
      && (d.Some? ==> Good(cased, keys, d.value) && Meaning(cased, d.value) == r.value)
    decreases |tokens|
  {
    var t := tokens[0];
    assert t in tokens;
    EncodeLaws(t);
    PathOfTokens(tokens);
    FitsHere(cased, v, tokens);
    hide Path, Encode, DetachPath, Detached, Step, Good, InPlace, Fits, Fitting, RfcTarget, Put, Child, Meaning;
    if |tokens| == 1 {
      assert [SLASH] + Encode(t) + [] == [SLASH] + Encode(t);
      TargetPath(cased, v, Encode(t));
      DetachedMeaning(cased, keys, v, t, value);
    } else {
      hide Rfc6902;
      var sub := Path(tokens[1..]);
      DetachBelow(cased, v, t, sub);
      ChildRfc(cased, keys, v, Kind.Remove, tokens, value);
      var k := Step(cased, v, Encode(t));
      if k.Some? {
        var c := Child(v, k.value);
        DetachIsRemove(cased, keys, c, tokens[1..], value);
        var d := DetachPath(cased, c, sub);
        if d.Some? {
          ChildPut(cased, keys, v, Kind.Remove, tokens, value, d.value);
        }
      }
    }
  }

  /** The end of `apply_patch` adds what RFC 6902 adds. */
  lemma {:induction false} AttachIsAdd(cased: bool, keys: iset<Str>, v: Json, tokens: seq<Str>,
      value: Json)
    requires Good(cased, keys, v) && Suitable(cased, keys) && tokens != []
    requires forall t | t in tokens :: t in keys
    requires Fitting(cased, Meaning(cased, v), tokens)
    requires Good(cased, keys, value)
    ensures var a := AttachPath(cased, v, Path(tokens), value);
      var r := Rfc6902(cased, Meaning(cased, v), Kind.Add, tokens, Meaning(cased, value));
      && (a.status == 0 <==> r.Some?)
      && (r.Some? ==> Good(cased, keys, a.tree) && Meaning(cased, a.tree) == r.value)
    decreases |tokens|
  {
    var t := tokens[0];
    assert t in tokens;
    EncodeLaws(t);
    PathOfTokens(tokens);
    FitsHere(cased, v, tokens);
    hide Path, Encode, AttachPath, Attached, Step, Good, InPlace, Fits, Fitting, RfcTarget, Put, Child, Meaning;
    if |tokens| == 1 {
      assert [SLASH] + Encode(t) + [] == [SLASH] + Encode(t);
      TargetPath(cased, v, Encode(t));
      AttachedMeaning(cased, keys, v, t, value);
    } else {
      hide Rfc6902;
      var sub := Path(tokens[1..]);
      AttachBelow(cased, v, t, sub, value);
      ChildRfc(cased, keys, v, Kind.Add, tokens, Meaning(cased, value));
      var k := Step(cased, v, Encode(t));
      if k.Some? {
        var c := Child(v, k.value);
        AttachIsAdd(cased, keys, c, tokens[1..], value);
        var a := AttachPath(cased, c, sub, value);
        if a.status == 0 {
          ChildPut(cased, keys, v, Kind.Add, tokens, Meaning(cased, value), a.tree);
        }
      }
    }
  }

  /**
   `apply_patch` is RFC 6902: it succeeds exactly if the operation is possible, and then the tree
   means what the operation yields.
   */
  lemma ApplyIsRfc6902(cased: bool, keys: iset<Str>, v: Json, kind: Kind, tokens: seq<Str>,
      value: Json)
    requires Good(cased, keys, v) && Suitable(cased, keys)
    requires forall t | t in tokens :: t in keys
    requires kind == Kind.Remove ==> tokens != []
    requires Fitting(cased, Meaning(cased, v), tokens)
    requires Good(cased, keys, value) && Height(value) <= CIRCULAR_LIMIT
    ensures Path(tokens) == [] <==> tokens == []
    ensures var a := ApplyEdit(cased, v, kind, Path(tokens), Some(value));
      var r := Rfc6902(cased, Meaning(cased, v), kind, tokens, Meaning(cased, value));
      && (a.status == 0 <==> r.Some?)
      && (r.Some? ==> Good(cased, keys, a.tree) && Meaning(cased, a.tree) == r.value)
  {
    DuplicateExact(value, 0);
    hide Good, Meaning, DuplicateAt, Height, DetachPath, AttachPath, Fitting;
    if tokens != [] {
      PathOfTokens(tokens);
      hide Path, Rfc6902;
      var w := Meaning(cased, value);
      if kind != Kind.Add {
        DetachIsRemove(cased, keys, v, tokens, w);
        var d := DetachPath(cased, v, Path(tokens));
        if kind == Kind.Replace {
          ReplaceIsRemoveAdd(cased, Meaning(cased, v), tokens, w);
          if d.Some? {
            RemovalFits(cased, Meaning(cased, v), tokens, w);
            AttachIsAdd(cased, keys, d.value, tokens, value);
          }
        }
      } else {
        AttachIsAdd(cased, keys, v, tokens, value);
      }
    }
  }

  lemma NullIsGood(cased: bool, keys: iset<Str>)
    ensures Good(cased, keys, Null)
  {
  }

  lemma FitsHere(cased: bool, v: Json, tokens: seq<Str>)
    requires tokens != [] && Fitting(cased, Meaning(cased, v), tokens)
    ensures Fits(v, if |tokens| > 1 then Encode(tokens[0]) else tokens[0], tokens[0])
  {
  }
}
