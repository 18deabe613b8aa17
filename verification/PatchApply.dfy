/**
 Applying JSON Patch (RFC 6902) as cJSON_Utils.c does it, for the operations add, remove and replace.
 */
module PatchApply {
  import opened Prelude
  import opened Json
  import opened Pointer

  datatype Kind = Add | Remove | Replace

  /** The status `apply_patch` returns, and the tree it leaves. */
  datatype Applied = Applied(status: int, tree: Json)

  // ----- changing one place of a tree -----

  /** `v` with `w` at a position. */
  function Put(v: Json, position: seq<nat>, w: Json): Json
    requires NodeAt(v, position).Some?
    decreases position
  {
    if position == [] then w
    else
      var k := position[0];
      match v
      case Array(items) => Array(items[k := Put(items[k], position[1..], w)])
      case Object(members) => Object(members[k := Member(members[k].key, Put(members[k].value, position[1..], w))])
  }

  /** `strrchr(path, '/')`. */
  function LastSlash(path: Str): (k: Option<nat>)
    ensures k.Some? ==> k.value < |path| && path[k.value] == SLASH
  {
    if path == [] then None
    else if path[|path| - 1] == SLASH then Some(|path| - 1)
    else LastSlash(path[..|path| - 1])
  }

  /** The parent without the child that the decoded last token names; member keys are compared without case. */
  function Detached(parent: Json, child: Str): Option<Json> {
    match parent
    case Array(items) =>
      var index := ArrayIndex(child);
      if index.Some? && index.value < |items| then Some(Array(Without(items, index.value))) else None
    case Object(members) =>
      var k := Find(false, members, child);
      if k < |members| then Some(Object(Without(members, k))) else None
    case _ => None
  }

  /** `detach_path`: the tree without the item at the path, if there is one. */
  function DetachPath(cased: bool, v: Json, path: Str): Option<Json> {
    var k := LastSlash(path);
    if k.None? then None
    else
      var position := Resolve(cased, v, path[..k.value]);
      if position.None? then None
      else
        var parent := Detached(NodeAt(v, position.value).value, InPlace(path[k.value + 1..]));
        if parent.None? then None else Some(Put(v, position.value, parent.value))
  }

  /** The parent with the value added where the decoded last token says. */
  function Attached(cased: bool, parent: Json, child: Str, value: Json): Applied {
    match parent
    case Array(items) =>
      if child == [45] then Applied(0, Array(items + [value]))
      else
        var index := ArrayIndex(child);
        if index.None? then Applied(11, parent)
        else if index.value > |items| then Applied(10, parent)
        else Applied(0, Array(With(items, index.value, value)))
    case Object(members) => Applied(0, Object(RemoveKey(cased, members, child) + [Member(child, value)]))
    case _ => Applied(9, parent)
  }

  /** The end of `apply_patch`: adding a value at a path. */
  function AttachPath(cased: bool, v: Json, path: Str, value: Json): Applied {
    var k := LastSlash(path);
    if k.None? then Applied(9, v)
    else
      var position := Resolve(cased, v, path[..k.value]);
      if position.None? then Applied(9, v)
      else
        var r := Attached(cased, NodeAt(v, position.value).value, InPlace(path[k.value + 1..]), value);
        Applied(r.status, Put(v, position.value, r.tree))
  }

  /** `apply_patch` once operation, path and value are known. */
  function ApplyEdit(cased: bool, v: Json, kind: Kind, path: Str, value: Option<Json>): Applied
    requires kind == Remove ==> path != []
  {
    if path == [] then
      if value.None? then Applied(7, v)
      else
        var copy := Duplicate(value.value);
        if copy.None? then Applied(8, v) else Applied(0, copy.value)
    else
      var base := if kind == Add then Some(v) else DetachPath(cased, v, path);
      if base.None? then Applied(13, v)
      else if kind == Remove then Applied(0, base.value)
      else if value.None? then Applied(7, base.value)
      else
        var copy := Duplicate(value.value);
        if copy.None? then Applied(8, base.value) else AttachPath(cased, base.value, path, copy.value)
  }

  const OP: Str := [111, 112]
  const PATH: Str := [112, 97, 116, 104]
  const VALUE: Str := [118, 97, 108, 117, 101]
  const ADD: Str := [97, 100, 100]
  const REMOVE: Str := [114, 101, 109, 111, 118, 101]
  const REPLACE: Str := [114, 101, 112, 108, 97, 99, 101]
  const OTHERS: set<Str> := {[109, 111, 118, 101], [99, 111, 112, 121], [116, 101, 115, 116]}

  /** The member names and operations are those of sections 3 and 4 of RFC 6902. */
  lemma WordsExactly()
    ensures OP == Ascii("op") && PATH == Ascii("path") && VALUE == Ascii("value")
    ensures ADD == Ascii("add") && REMOVE == Ascii("remove") && REPLACE == Ascii("replace")
    ensures OTHERS == {Ascii("move"), Ascii("copy"), Ascii("test")}
    ensures [SLASH, TILDE, ZERO, ONE, NINE] == Ascii("/~019")
  {
    var move, copy, test := Ascii("move"), Ascii("copy"), Ascii("test");
    assert move == [109, 111, 118, 101] && copy == [99, 111, 112, 121] && test == [116, 101, 115, 116];
  }

  /** `get_object_item`. */
  function ItemOf(cased: bool, v: Json, key: Str): Option<Json> {
    if !v.Object? then None
    else
      var k := Find(cased, v.members, key);
      if k < |v.members| then Some(v.members[k].value) else None
  }

  /** `decode_patch_operation`, for the operations modelled. */
  function KindOf(operation: Option<Json>): Option<Kind> {
    if operation.None? || !operation.value.String? then None
    else if operation.value.s == ADD then Some(Add)
    else if operation.value.s == REMOVE then Some(Remove)
    else if operation.value.s == REPLACE then Some(Replace)
    else None
  }

  /** True for every patch but test, move, copy and the removal of the whole document. */
  predicate Modelled(cased: bool, patch: Json) {
    var operation, path := ItemOf(cased, patch, OP), ItemOf(cased, patch, PATH);
    && (operation.Some? && operation.value.String? ==> operation.value.s !in OTHERS)
    && !(KindOf(operation) == Some(Remove) && path == Some(String([])))
  }

  /** `apply_patch`. */
  function ApplyPatch(cased: bool, v: Json, patch: Json): Applied
    requires Modelled(cased, patch)
  {
    var path := ItemOf(cased, patch, PATH);
    if path.None? || !path.value.String? then Applied(2, v)
    else
      var kind := KindOf(ItemOf(cased, patch, OP));
      if kind.None? then Applied(3, v)
      else ApplyEdit(cased, v, kind.value, path.value.s, ItemOf(cased, patch, VALUE))
  }

  predicate AllModelled(cased: bool, patches: seq<Json>) {
    forall i | 0 <= i < |patches| :: Modelled(cased, patches[i])
  }

  /** The patches in order, up to the first failure. */
  function ApplyInOrder(cased: bool, v: Json, patches: seq<Json>): Applied
    requires AllModelled(cased, patches)
    decreases |patches|
  {
    if patches == [] then Applied(0, v)
    else
      var first := ApplyPatch(cased, v, patches[0]);
      if first.status != 0 then first else ApplyInOrder(cased, first.tree, patches[1..])
  }

  /** The first `|trees| - 1` patches succeed one after the other, with `trees` before, between and behind them. */
  predicate Chain(cased: bool, trees: seq<Json>, patches: seq<Json>)
    requires AllModelled(cased, patches)
  {
    && 1 <= |trees| <= |patches| + 1
    && forall i | 0 <= i < |trees| - 1 :: ApplyPatch(cased, trees[i], patches[i]) == Applied(0, trees[i + 1])
  }

  /** All patches succeed and lead from `v` to `tree`. */
  ghost predicate Succeeds(cased: bool, v: Json, patches: seq<Json>, tree: Json)
    requires AllModelled(cased, patches)
  {
    exists trees: seq<Json> ::
      |trees| == |patches| + 1 && Chain(cased, trees, patches) && trees[0] == v && trees[|patches|] == tree
  }

  /** The patches before some patch succeed, and that one fails with this status and leaves this tree. */
  ghost predicate Fails(cased: bool, v: Json, patches: seq<Json>, r: Applied)
    requires AllModelled(cased, patches)
  {
    exists trees: seq<Json> ::
      && 1 <= |trees| <= |patches| && Chain(cased, trees, patches) && trees[0] == v
      && r.status != 0 && r == ApplyPatch(cased, trees[|trees| - 1], patches[|trees| - 1])
  }

  /** The trees of a run, one before each patch up to the one it ends with. */
  function Trees(cased: bool, v: Json, patches: seq<Json>): (trees: seq<Json>)
    requires AllModelled(cased, patches)
    ensures trees != [] && trees[0] == v
    decreases |patches|
  {
    if patches == [] then [v]
    else
      var first := ApplyPatch(cased, v, patches[0]);
      if first.status != 0 then [v] else [v] + Trees(cased, first.tree, patches[1..])
  }

  lemma {:induction false} TreesChain(cased: bool, v: Json, patches: seq<Json>)
    requires AllModelled(cased, patches)
    ensures var trees, r := Trees(cased, v, patches), ApplyInOrder(cased, v, patches);
      && Chain(cased, trees, patches)
      && (if r.status == 0 then |trees| == |patches| + 1 && trees[|patches|] == r.tree
          else |trees| <= |patches| && r == ApplyPatch(cased, trees[|trees| - 1], patches[|trees| - 1]))
    decreases |patches|
  {
    hide ApplyPatch, Modelled;
    if patches != [] {
      var first := ApplyPatch(cased, v, patches[0]);
      if first.status == 0 {
        TreesChain(cased, first.tree, patches[1..]);
      }
    }
  }

  /** What chains and ends like a run is the run. */
  lemma {:induction false} ChainRuns(cased: bool, trees: seq<Json>, patches: seq<Json>)
    requires AllModelled(cased, patches) && Chain(cased, trees, patches)
    ensures var n := |trees| - 1;
      ApplyInOrder(cased, trees[0], patches) == ApplyInOrder(cased, trees[n], patches[n..])
    decreases |trees|
  {
    hide ApplyPatch, Modelled;
    if |trees| > 1 {
      ChainRuns(cased, trees[1..], patches[1..]);
      assert patches[1..][|trees| - 2..] == patches[|trees| - 1..];
    } else {
      assert patches[0..] == patches;
    }
  }

  lemma RunOutcome(cased: bool, v: Json, patches: seq<Json>)
    requires AllModelled(cased, patches)
    ensures var r := ApplyInOrder(cased, v, patches);
      if r.status == 0 then Succeeds(cased, v, patches, r.tree) else Fails(cased, v, patches, r)
  {
    hide ApplyPatch, Modelled, Chain, ApplyInOrder, Trees;
    TreesChain(cased, v, patches);
    var trees := Trees(cased, v, patches);
    assert Chain(cased, trees, patches) && trees[0] == v;
  }

  lemma SucceedsRuns(cased: bool, v: Json, patches: seq<Json>, tree: Json)
    requires AllModelled(cased, patches) && Succeeds(cased, v, patches, tree)
    ensures ApplyInOrder(cased, v, patches) == Applied(0, tree)
  {
    hide ApplyPatch, Modelled, Chain;
    var trees: seq<Json> :|
      |trees| == |patches| + 1 && Chain(cased, trees, patches) && trees[0] == v && trees[|patches|] == tree;
    ChainRuns(cased, trees, patches);
    assert patches[|patches|..] == [];
  }

  lemma FailsRuns(cased: bool, v: Json, patches: seq<Json>, r: Applied)
    requires AllModelled(cased, patches) && Fails(cased, v, patches, r)
    ensures ApplyInOrder(cased, v, patches) == r
  {
    hide ApplyPatch, Modelled, Chain;
    var trees: seq<Json> :|
      && 1 <= |trees| <= |patches| && Chain(cased, trees, patches) && trees[0] == v
      && r.status != 0 && r == ApplyPatch(cased, trees[|trees| - 1], patches[|trees| - 1]);
    ChainRuns(cased, trees, patches);
    assert patches[|trees| - 1..][0] == patches[|trees| - 1];
  }

  /** A run ends with status 0 exactly if every patch succeeds, and with another exactly at the patch that fails so. */
  lemma OutcomeExactly(cased: bool, v: Json, patches: seq<Json>, r: Applied)
    requires AllModelled(cased, patches)
    ensures ApplyInOrder(cased, v, patches) == r <==>
      if r.status == 0 then Succeeds(cased, v, patches, r.tree) else Fails(cased, v, patches, r)
  {
    hide ApplyInOrder, Succeeds, Fails, Modelled;
    RunOutcome(cased, v, patches);
    if r.status == 0 && Succeeds(cased, v, patches, r.tree) {
      SucceedsRuns(cased, v, patches, r.tree);
    } else if r.status != 0 && Fails(cased, v, patches, r) {
      FailsRuns(cased, v, patches, r);
    }
  }

  /** `cJSONUtils_ApplyPatches` and its case-sensitive variant. */
  method ApplyPatches(cased: bool, v: Json, patches: Json) returns (status: int, tree: Json)
    requires patches.Array? ==> AllModelled(cased, patches.items)
    ensures !patches.Array? ==> status == 1 && tree == v
    ensures patches.Array? ==> Applied(status, tree) == ApplyInOrder(cased, v, patches.items)
    ensures patches.Array? && status == 0 ==> Succeeds(cased, v, patches.items, tree)
    ensures patches.Array? && status != 0 ==> Fails(cased, v, patches.items, Applied(status, tree))
  {
    status, tree := 0, v;
    if !patches.Array? {
      return 1, v;
    }
    var k := 0;
    while k < |patches.items|
      invariant k <= |patches.items|
      invariant status == 0
      invariant ApplyInOrder(cased, v, patches.items) == ApplyInOrder(cased, tree, patches.items[k..])
    {
      hide Modelled, ApplyPatch;
      ghost var rest := patches.items[k..];
      assert rest[0] == patches.items[k] && rest[1..] == patches.items[k + 1..];
      var r := ApplyPatch(cased, tree, patches.items[k]);
      status, tree := r.status, r.tree;
      if status != 0 {
        OutcomeExactly(cased, v, patches.items, Applied(status, tree));
        return;
      }
      k := k + 1;
    }
    OutcomeExactly(cased, v, patches.items, Applied(status, tree));
  }

  lemma OpAndPath(cased: bool, operation: Json, path: Json, rest: seq<Member>)
    ensures var patch := Object([Member(OP, operation), Member(PATH, path)] + rest);
      ItemOf(cased, patch, OP) == Some(operation) && ItemOf(cased, patch, PATH) == Some(path)
  {
    var members := [Member(OP, operation), Member(PATH, path)] + rest;
    assert members[1..][0] == members[1];
    hide Fold;
  }

  /**
   Behind a failing patch nothing is done: the removal of a missing member fails with status 13, and the
   addition that follows is not made.
   */
  lemma LaterPatchNotMade(cased: bool)
    ensures var first := Object([Member(OP, String(REMOVE)), Member(PATH, String([SLASH, 120]))] + []);
      var added := [Member(VALUE, Number(1))];
      var second := Object([Member(OP, String(ADD)), Member(PATH, String([SLASH, 121]))] + added);
      && AllModelled(cased, [first, second])
      && ApplyInOrder(cased, Object([]), [first, second]) == Applied(13, Object([]))
  {
    OpAndPath(cased, String(REMOVE), String([SLASH, 120]), []);
    OpAndPath(cased, String(ADD), String([SLASH, 121]), [Member(VALUE, Number(1))]);
    NothingToRemove(cased);
    hide ItemOf, DetachPath;
  }

  lemma NothingToRemove(cased: bool)
    ensures DetachPath(cased, Object([]), [SLASH, 120]).None?
  {
    assert [SLASH, 120][..1] == [SLASH];
    assert LastSlash([SLASH]) == Some(0);
    hide InPlace;
  }

  // ----- what a failing patch leaves -----

  lemma {:induction false} PutBack(v: Json, position: seq<nat>)
    requires NodeAt(v, position).Some?
    ensures Put(v, position, NodeAt(v, position).value) == v
    decreases position
  {
    if position != [] {
      PutBack(Child(v, position[0]), position[1..]);
    }
  }

  lemma {:induction false} PutThere(v: Json, position: seq<nat>, w: Json)
    requires NodeAt(v, position).Some?
    ensures NodeAt(Put(v, position, w), position) == Some(w)
    decreases position
  {
    if position != [] {
      PutThere(Child(v, position[0]), position[1..], w);
    }
  }

  lemma {:induction false} SameKeysMatch(cased: bool, a: seq<Member>, b: seq<Member>, pointer: Str)
    requires |a| == |b| && forall i | 0 <= i < |a| :: a[i].key == b[i].key
    ensures FindMatch(cased, a, pointer) == FindMatch(cased, b, pointer)
  {
    hide Matches;
    if a != [] {
      SameKeysMatch(cased, a[1..], b[1..], pointer);
    }
  }

  /** A pointer leads to the same place when what is there is exchanged. */
  lemma {:induction false} ResolveAgain(cased: bool, v: Json, pointer: Str, w: Json)
    requires Resolve(cased, v, pointer).Some?
    ensures var position := Resolve(cased, v, pointer);
      Resolve(cased, Put(v, position.value, w), pointer) == position
    decreases |pointer|
  {
    hide Matches, ArrayIndex, FindMatch;
    if pointer != [] && pointer[0] == SLASH {
      var k := Step(cased, v, pointer[1..]).value;
      var c, sub := Child(v, k), Rest(pointer[1..]);
      var below := Resolve(cased, c, sub).value;
      assert ([k] + below)[1..] == below;
      ResolveAgain(cased, c, sub, w);
      if v.Object? {
        SameKeysMatch(cased, v.members, Put(v, [k] + below, w).members, pointer[1..]);
      }
    }
  }

  lemma AttachedAgain(cased: bool, parent: Json, child: Str, value: Json)
    requires Detached(parent, child).Some?
    ensures Attached(cased, Detached(parent, child).value, child, value).status == 0
  {
    DashNoIndex();
    hide ArrayIndex;
  }

  /** A value can be added where one was removed. */
  lemma AttachAgain(cased: bool, v: Json, path: Str, value: Json)
    requires DetachPath(cased, v, path).Some?
    ensures AttachPath(cased, DetachPath(cased, v, path).value, path, value).status == 0
  {
    hide Resolve, Detached, Attached, NodeAt, Put, InPlace;
    var k := LastSlash(path).value;
    var position := Resolve(cased, v, path[..k]).value;
    var parent, child := NodeAt(v, position).value, InPlace(path[k + 1..]);
    var left := Detached(parent, child).value;
    ResolveAgain(cased, v, path[..k], left);
    PutThere(v, position, left);
    AttachedAgain(cased, parent, child, value);
  }

  /**
   A patch that fails leaves the document as it was, but for one case: a replacement without a value, or
   with one nested too deeply, has removed its target.
   */
  lemma FailureLeaves(cased: bool, v: Json, kind: Kind, path: Str, value: Option<Json>)
    requires kind == Remove ==> path != []
    ensures var r, removed := ApplyEdit(cased, v, kind, path, value), DetachPath(cased, v, path);
      r.status != 0 ==>
        if kind == Replace && path != [] && removed.Some? then
          r.tree == removed.value && (value.None? || Duplicate(value.value).None?)
        else r.tree == v
  {
    hide DetachPath, Duplicate, Resolve, Attached, Put;
    if path != [] && value.Some? && Duplicate(value.value).Some? {
      var copy := Duplicate(value.value).value;
      if kind == Add {
        AttachLeaves(cased, v, path, copy);
      } else if DetachPath(cased, v, path).Some? {
        AttachAgain(cased, v, path, copy);
      }
    }
  }

  /**
   The failures of one operation: 13 if there is nothing to remove, 7 without a value, 8 with one nested too
   deeply; that the place cannot be reached or used, 9 to 11, happens to additions only.
   */
  lemma StatusExactly(cased: bool, v: Json, kind: Kind, path: Str, value: Option<Json>)
    requires kind == Remove ==> path != []
    ensures var s := ApplyEdit(cased, v, kind, path, value).status;
      && (s == 13 <==> kind != Add && path != [] && DetachPath(cased, v, path).None?)
      && (s == 7 <==> kind != Remove && value.None? && s != 13)
      && (s == 8 <==> kind != Remove && value.Some? && Height(value.value) > CIRCULAR_LIMIT && s != 13)
      && (s == 9 || s == 10 || s == 11 ==> kind == Add && path != [])
      && (s == 0 || s == 7 || s == 8 || s == 9 || s == 10 || s == 11 || s == 13)
  {
    if value.Some? {
      DuplicateExact(value.value, 0);
    }
    hide DetachPath, DuplicateAt, Height, AttachPath;
    if path != [] && value.Some? && Duplicate(value.value).Some? {
      var copy := Duplicate(value.value).value;
      if kind == Add {
        AttachStatus(cased, v, path, copy);
      } else if kind == Replace && DetachPath(cased, v, path).Some? {
        AttachAgain(cased, v, path, copy);
      }
    }
  }

  /** Status 2 without a path, 3 for an operation RFC 6902 does not know; else the path and value decide. */
  lemma PatchStatusExactly(cased: bool, v: Json, patch: Json)
    requires Modelled(cased, patch)
    ensures var path, operation := ItemOf(cased, patch, PATH), ItemOf(cased, patch, OP);
      var s := ApplyPatch(cased, v, patch).status;
      && (s == 2 <==> path.None? || !path.value.String?)
      && (s == 3 <==>
            (s != 2 && operation != Some(String(Ascii("add"))) && operation != Some(String(Ascii("remove")))
             && operation != Some(String(Ascii("replace")))))
  {
    WordsExactly();
    hide ItemOf, Ascii;
    var path, kind := ItemOf(cased, patch, PATH), KindOf(ItemOf(cased, patch, OP));
    if path.Some? && path.value.String? && kind.Some? {
      StatusExactly(cased, v, kind.value, path.value.s, ItemOf(cased, patch, VALUE));
    }
    hide ApplyEdit;
  }

  lemma AttachStatus(cased: bool, v: Json, path: Str, value: Json)
    ensures var s := AttachPath(cased, v, path, value).status; s == 0 || s == 9 || s == 10 || s == 11
  {
    hide Resolve, InPlace, ArrayIndex, Put;
  }

  lemma AttachLeaves(cased: bool, v: Json, path: Str, value: Json)
    ensures var r := AttachPath(cased, v, path, value); r.status != 0 ==> r.tree == v
  {
    hide Resolve, InPlace, ArrayIndex;
    var k := LastSlash(path);
    if k.Some? {
      var position := Resolve(cased, v, path[..k.value]);
      if position.Some? {
        PutBack(v, position.value);
      }
    }
  }

  // ----- RFC 6902 on values -----

  /** One operation at the location a token names in its parent, by section 4 of RFC 6902. */
  function RfcTarget(cased: bool, parent: Value, kind: Kind, token: Str,
      value: Value): Option<Value> {
    match parent
    case VObject(m) =>
      var f := Fold(cased, token);
      if kind == Add then Some(VObject(m[f := value]))
      else if f !in m then None
      else if kind == Remove then Some(VObject(m - {f}))
      else Some(VObject(m[f := value]))
    case VArray(a) =>
      if kind == Add && token == [45] then Some(VArray(a + [value]))
      else
        var index := RfcIndex(token);
        if index.None? then None
        else if kind == Add then (if index.value <= |a| then Some(VArray(With(a, index.value, value))) else None)
        else if index.value >= |a| then None
        else if kind == Remove then Some(VArray(Without(a, index.value)))
        else Some(VArray(a[index.value := value]))
    case _ => None
  }

  /** One operation of RFC 6902 at the location its reference tokens name. */
  function Rfc6902(cased: bool, v: Value, kind: Kind, tokens: seq<Str>, value: Value): Option<Value>
    decreases |tokens|
  {
    if tokens == [] then (if kind == Remove then None else Some(value))
    else if |tokens| == 1 then RfcTarget(cased, v, kind, tokens[0], value)
    else
      match v
      case VObject(m) =>
        var f := Fold(cased, tokens[0]);
        if f !in m then None
        else
          var r := Rfc6902(cased, m[f], kind, tokens[1..], value);
          if r.None? then None else Some(VObject(m[f := r.value]))
      case VArray(a) =>
        var index := RfcIndex(tokens[0]);
        if index.None? || index.value >= |a| then None
        else
          var r := Rfc6902(cased, a[index.value], kind, tokens[1..], value);
          if r.None? then None else Some(VArray(a[index.value := r.value]))
      case _ => None
  }

  /** A replacement is a removal followed by an addition at the same location. */
  lemma {:induction false} ReplaceIsRemoveAdd(cased: bool, v: Value, tokens: seq<Str>, value: Value)
    requires tokens != []
    ensures var removed := Rfc6902(cased, v, Remove, tokens, value);
      Rfc6902(cased, v, Replace, tokens, value)
      == if removed.None? then None else Rfc6902(cased, removed.value, Add, tokens, value)
    decreases |tokens|
  {
    hide Fold, RfcIndex;
    if |tokens| == 1 {
      ReplaceAtTarget(cased, v, tokens[0], value);
    } else if v.VObject? && Fold(cased, tokens[0]) in v.members {
      hide RfcTarget;
      var m, f := v.members, Fold(cased, tokens[0]);
      ReplaceIsRemoveAdd(cased, m[f], tokens[1..], value);
      var removed := Rfc6902(cased, m[f], Remove, tokens[1..], value);
      if removed.Some? {
        var added := Rfc6902(cased, removed.value, Add, tokens[1..], value);
        if added.Some? {
          assert m[f := removed.value][f := added.value] == m[f := added.value];
        }
      }
    } else if v.VArray? && RfcIndex(tokens[0]).Some? && RfcIndex(tokens[0]).value < |v.items| {
      hide RfcTarget;
      var a, i := v.items, RfcIndex(tokens[0]).value;
      ReplaceIsRemoveAdd(cased, a[i], tokens[1..], value);
      var removed := Rfc6902(cased, a[i], Remove, tokens[1..], value);
      if removed.Some? {
        var added := Rfc6902(cased, removed.value, Add, tokens[1..], value);
        if added.Some? {
          assert a[i := removed.value][i := added.value] == a[i := added.value];
        }
      }
    }
  }

  lemma ReplaceAtTarget(cased: bool, v: Value, token: Str, value: Value)
    ensures var removed := RfcTarget(cased, v, Remove, token, value);
      RfcTarget(cased, v, Replace, token, value)
      == if removed.None? then None else RfcTarget(cased, removed.value, Add, token, value)
  {
    DashNoIndex();
    hide Fold, RfcIndex, ArrayIndex, With, Without;
    if v.VObject? {
      var f := Fold(cased, token);
      if f in v.members {
        assert (v.members - {f})[f := value] == v.members[f := value];
      }
    } else if v.VArray? {
      var index := RfcIndex(token);
      if index.Some? && index.value < |v.items| {
        WithinPlace(v.items, index.value, value);
      }
    }
  }

  lemma WithinPlace<T>(a: seq<T>, i: nat, x: T)
    requires i < |a|
    ensures With(Without(a, i), i, x) == a[i := x]
  {
  }

  lemma DashNoIndex()
    ensures RfcIndex([45]) == None && ArrayIndex([45]) == None
  {
  }
}
