/**
 JSON Pointer (RFC 6901) as cJSON_Utils.c builds, compares, resolves and decodes it.
 A position in a tree is the sequence of child indices that leads to it.
 */
module Pointer {
  import opened Prelude
  import opened Json
  import opened Decimal

  const SLASH: byte := 47
  const TILDE: byte := 126
  const ZERO: byte := 48
  const ONE: byte := 49
  const NINE: byte := 57

  /** The byte at `i` of a C string; behind its end stands the terminating NUL. */
  function ByteAt(s: Str, i: nat): byte {
    if i < |s| then s[i] else 0
  }

  // ----- escaping -----

  /** `encode_string_as_pointer`. */
  function Encode(s: Str): Str {
    if s == [] then []
    else Escaped(s[0]) + Encode(s[1..])
  }

  /** What a reference token stands for, by sections 3 and 4 of RFC 6901. */
  function Unescape(token: Str): Option<Str> {
    if token == [] then Some([])
    else if token[0] == TILDE then
      if ByteAt(token, 1) == ZERO then Cons(TILDE, Unescape(token[2..]))
      else if ByteAt(token, 1) == ONE then Cons(SLASH, Unescape(token[2..]))
      else None
    else Cons(token[0], Unescape(token[1..]))
  }

  function Cons(c: byte, s: Option<Str>): Option<Str> {
    if s.None? then None else Some([c] + s.value)
  }

  lemma {:induction false} EncodeLaws(s: Str)
    ensures Unescape(Encode(s)) == Some(s)
    ensures SLASH !in Encode(s)
    ensures SLASH !in s && TILDE !in s ==> Encode(s) == s
    ensures NulFree(s) ==> NulFree(Encode(s))
  {
    EncodeBytes(s);
    if s != [] {
      EncodeLaws(s[1..]);
      assert s == [s[0]] + s[1..];
      assert Encode(s) == Escaped(s[0]) + Encode(s[1..]);
      hide Encode, Unescape, Escaped;
      UnescapeStep(s[0], Encode(s[1..]));
    }
  }

  lemma UnescapeStep(c: byte, rest: Str)
    ensures Unescape(Escaped(c) + rest) == Cons(c, Unescape(rest))
  {
    var e := Escaped(c) + rest;
    if c == SLASH || c == TILDE {
      assert e[2..] == rest;
    } else {
      assert e[1..] == rest;
    }
  }

  lemma {:induction false} EncodeBytes(s: Str)
    ensures SLASH !in Encode(s)
    ensures SLASH !in s && TILDE !in s ==> Encode(s) == s
    ensures NulFree(s) ==> NulFree(Encode(s))
  {
    if s != [] {
      EncodeBytes(s[1..]);
      assert s == [s[0]] + s[1..];
    }
  }

  /** `pointer_encoded_length`. */
  method PointerEncodedLength(s: Str) returns (length: nat)
    ensures length == |Encode(s)|
  {
    length := 0;
    var i := 0;
    while i < |s|
      invariant i <= |s|
      invariant length + |Encode(s[i..])| == |Encode(s)|
    {
      assert s[i..][0] == s[i] && s[i..][1..] == s[i + 1..];
      if s[i] == TILDE || s[i] == SLASH {
        length := length + 1;
      }
      i, length := i + 1, length + 1;
    }
  }

  /** What one byte is escaped to. */
  function Escaped(c: byte): Str {
    if c == SLASH then [TILDE, ONE] else if c == TILDE then [TILDE, ZERO] else [c]
  }

  lemma EncodeStep(s: Str, i: nat)
    requires i < |s|
    ensures Encode(s[i..]) == Escaped(s[i]) + Encode(s[i + 1..])
  {
    assert s[i..][0] == s[i] && s[i..][1..] == s[i + 1..];
  }

  /** `encode_string_as_pointer`: the escaped string and its NUL from `start` on, and nothing else. */
  method EncodeStringAsPointer(destination: array<byte>, start: nat, source: Str)
    requires start + |Encode(source)| < destination.Length
    modifies destination
    ensures destination[..] == old(destination[..start]) + Encode(source) + [0]
      + old(destination[start + |Encode(source)| + 1..])
  {
    hide Encode;
    var i, d := 0, start;
    ghost var all := destination[..start] + Encode(source);
    assert source[0..] == source;
    while i < |source|
      invariant i <= |source| && start <= d <= |all| < destination.Length
      invariant all == destination[..d] + Encode(source[i..])
      invariant destination[|all| + 1..] == old(destination[|all| + 1..])
    {
      ghost var written, rest := destination[..d], Encode(source[i + 1..]);
      EncodeStep(source, i);
      assert all == (written + Escaped(source[i])) + rest;
      d := WriteEscaped(destination, d, source[i]);
      assert destination[|all| + 1..] == old(destination[|all| + 1..]);
      i := i + 1;
    }
    EncodeNothing(source[i..]);
    assert destination[..d] == all;
    destination[d] := 0;
    assert destination[..] == destination[..d] + [destination[d]] + destination[d + 1..];
  }

  lemma EncodeNothing(s: Str)
    requires s == []
    ensures Encode(s) == []
  {
  }

  /** The loop body: one byte, escaped. */
  method WriteEscaped(destination: array<byte>, d: nat, c: byte) returns (next: nat)
    requires d + |Escaped(c)| <= destination.Length
    modifies destination
    ensures next == d + |Escaped(c)|
    ensures destination[..next] == old(destination[..d]) + Escaped(c)
    ensures destination[next..] == old(destination[next..])
  {
    next := d;
    if c == SLASH {
      destination[next], destination[next + 1] := TILDE, ONE;
      next := next + 1;
    } else if c == TILDE {
      destination[next], destination[next + 1] := TILDE, ZERO;
      next := next + 1;
    } else {
      destination[next] := c;
    }
    next := next + 1;
  }

  // ----- comparing a name with the next token -----

  /** What lies before the next slash, and what follows. */
  function Token(pointer: Str): (t: Str)
    ensures |t| <= |pointer| && pointer[..|t|] == t && SLASH !in t
    ensures |t| < |pointer| ==> pointer[|t|] == SLASH
  {
    if pointer == [] || pointer[0] == SLASH then [] else [pointer[0]] + Token(pointer[1..])
  }

  function Rest(pointer: Str): Str {
    pointer[|Token(pointer)|..]
  }

  /** The verdict of `compare_pointers`. */
  predicate Matches(cased: bool, name: Str, pointer: Str) {
    if name == [] || pointer == [] || pointer[0] == SLASH then
      (name == []) == (pointer == [] || pointer[0] == SLASH)
    else if pointer[0] == TILDE then
      && ((ByteAt(pointer, 1) == ZERO && name[0] == TILDE) || (ByteAt(pointer, 1) == ONE && name[0] == SLASH))
      && Matches(cased, name[1..], pointer[2..])
    else Fold(cased, [name[0]]) == Fold(cased, [pointer[0]]) && Matches(cased, name[1..], pointer[1..])
  }

  /** `compare_pointers`: both strings followed up to the next slash. */
  method ComparePointers(cased: bool, name: Str, pointer: Str) returns (same: bool)
    ensures same == Matches(cased, name, pointer)
  {
    var i, j := 0, 0;
    while i < |name| && j < |pointer| && pointer[j] != SLASH
      invariant i <= |name| && j <= |pointer|
      invariant Matches(cased, name, pointer) == Matches(cased, name[i..], pointer[j..])
    {
      ghost var n, p := name[i..], pointer[j..];
      assert ByteAt(p, 1) == ByteAt(pointer, j + 1);
      assert n[1..] == name[i + 1..] && p[1..] == pointer[j + 1..];
      if pointer[j] == TILDE {
        if (ByteAt(pointer, j + 1) != ZERO || name[i] != TILDE) && (ByteAt(pointer, j + 1) != ONE || name[i] != SLASH) {
          return false;
        }
        assert p[2..] == pointer[j + 2..];
        j := j + 1;
      } else if (!cased && Lower(name[i]) != Lower(pointer[j])) || (cased && name[i] != pointer[j]) {
        assert cased || Fold(false, [name[i]])[0] != Fold(false, [pointer[j]])[0];
        return false;
      } else {
        assert Fold(cased, [name[i]]) == Fold(cased, [pointer[j]]);
      }
      i, j := i + 1, j + 1;
    }
    return (j < |pointer| && pointer[j] != SLASH) == (i < |name|);
  }

  lemma FoldCons(cased: bool, s: Str, t: Str)
    requires s != [] && t != []
    ensures Fold(cased, s) == Fold(cased, t)
       <==> Fold(cased, [s[0]]) == Fold(cased, [t[0]]) && Fold(cased, s[1..]) == Fold(cased, t[1..])
  {
    FoldSplit(cased, s);
    FoldSplit(cased, t);
    var a, b := Fold(cased, s), Fold(cased, t);
    if a == b {
      assert a[1..] == b[1..];
    }
  }

  lemma FoldSplit(cased: bool, s: Str)
    requires s != []
    ensures Fold(cased, s) == Fold(cased, [s[0]]) + Fold(cased, s[1..])
    ensures |Fold(cased, [s[0]])| == 1
  {
    assert cased ==> s == [s[0]] + s[1..];
  }

  /** Only a tilde and a slash match themselves when case is ignored. */
  lemma FoldEscaped(cased: bool, c: byte, d: byte)
    requires d == TILDE || d == SLASH
    ensures Fold(cased, [c]) == Fold(cased, [d]) <==> c == d
  {
    if !cased {
      assert Fold(false, [c])[0] == Lower(c) && Fold(false, [d])[0] == d;
    }
  }

  /** A name matches exactly if the next token stands for it, up to case where that is ignored. */
  lemma {:induction false} MatchesExactly(cased: bool, name: Str, pointer: Str)
    ensures Matches(cased, name, pointer)
       <==> Unescape(Token(pointer)).Some? && Fold(cased, name) == Fold(cased, Unescape(Token(pointer)).value)
    decreases |pointer|
  {
    hide Fold;
    var token := Token(pointer);
    if pointer == [] || pointer[0] == SLASH {
      assert Fold(cased, []) == [];
    } else if token[0] == TILDE {
      if |pointer| >= 2 && (pointer[1] == ZERO || pointer[1] == ONE) {
        assert token == [pointer[0], pointer[1]] + Token(pointer[2..]);
        assert token[2..] == Token(pointer[2..]);
        if name != [] {
          MatchesExactly(cased, name[1..], pointer[2..]);
          FoldEscaped(cased, name[0], if pointer[1] == ZERO then TILDE else SLASH);
          if Unescape(token).Some? {
            FoldCons(cased, name, Unescape(token).value);
          }
        }
      } else {
        assert ByteAt(token, 1) != ZERO && ByteAt(token, 1) != ONE;
      }
    } else {
      assert token[1..] == Token(pointer[1..]);
      if name != [] {
        MatchesExactly(cased, name[1..], pointer[1..]);
        if Unescape(token).Some? {
          FoldCons(cased, name, Unescape(token).value);
        }
      }
    }
  }

  // ----- array indices -----

  /** Where the run of bytes not below '0' ends. */
  function RunEnd(p: Str, i: nat): (end: nat)
    requires i <= |p|
    ensures i <= end <= |p|
    ensures forall k | i <= k < end :: p[k] >= ZERO
    ensures end < |p| ==> p[end] < ZERO
    decreases |p| - i
  {
    if i < |p| && p[i] >= ZERO then RunEnd(p, i + 1) else i
  }

  /** The number the loop accumulates in a 64-bit `size_t`. */
  function Accumulated(s: Str): (n: nat)
    requires forall k | 0 <= k < |s| :: s[k] >= ZERO
    ensures n < 0x1_0000_0000_0000_0000
  {
    if s == [] then 0
    else
      var last: int := s[|s| - 1];
      (10 * Accumulated(s[..|s| - 1]) + (last - 48)) % 0x1_0000_0000_0000_0000
  }

  predicate Ends(c: byte) {
    c == 0 || c == SLASH
  }

  /** What `decode_array_index_from_pointer` makes of the next token. */
  function ArrayIndex(pointer: Str): (r: Option<nat>) {
    if ByteAt(pointer, 0) == ZERO && !Ends(ByteAt(pointer, 1)) then None
    else
      var end := if ByteAt(pointer, 0) <= NINE then RunEnd(pointer, 0) else 0;
      if Ends(ByteAt(pointer, end)) then Some(Accumulated(pointer[..end])) else None
  }

  /** `decode_array_index_from_pointer`. */
  method DecodeArrayIndexFromPointer(pointer: Str) returns (index: Option<nat>)
    ensures index == ArrayIndex(pointer)
  {
    if ByteAt(pointer, 0) == ZERO && ByteAt(pointer, 1) != 0 && ByteAt(pointer, 1) != SLASH {
      return None;
    }
    var parsed: nat, position := 0, 0;
    while ByteAt(pointer, position) >= ZERO && ByteAt(pointer, 0) <= NINE
      invariant position <= |pointer|
      invariant forall k | 0 <= k < position :: pointer[k] >= ZERO
      invariant position > 0 ==> ByteAt(pointer, 0) <= NINE
      invariant ByteAt(pointer, 0) <= NINE ==> RunEnd(pointer, position) == RunEnd(pointer, 0)
      invariant parsed == Accumulated(pointer[..position])
      decreases |pointer| - position
    {
      var c: int := pointer[position];
      assert pointer[..position + 1][..position] == pointer[..position];
      parsed, position := (10 * parsed + (c - 48)) % 0x1_0000_0000_0000_0000, position + 1;
    }
    if ByteAt(pointer, position) != 0 && ByteAt(pointer, position) != SLASH {
      return None;
    }
    return Some(parsed);
  }

  /** The array index a token stands for by section 4 of RFC 6901, if it fits a `size_t`. */
  function RfcIndex(token: Str): Option<nat> {
    if token != [] && (forall k | 0 <= k < |token| :: IsDigit(token[k])) && (token[0] == ZERO ==> |token| == 1)
       && 0 <= NumberOf(token) < 0x1_0000_0000_0000_0000
    then Some(NumberOf(token)) else None
  }

  lemma {:induction false} AccumulatedDigits(s: Str)
    requires forall k | 0 <= k < |s| :: ZERO <= s[k] <= NINE
    requires NumberOf(s) < 0x1_0000_0000_0000_0000
    ensures NumberOf(s) >= 0 && Accumulated(s) == NumberOf(s)
  {
    if s != [] {
      assert NumberOf(s[..|s| - 1]) >= 0 by {
        NumberNatural(s[..|s| - 1]);
      }
      AccumulatedDigits(s[..|s| - 1]);
    }
  }

  lemma {:induction false} NumberNatural(s: Str)
    requires forall k | 0 <= k < |s| :: ZERO <= s[k] <= NINE
    ensures NumberOf(s) >= 0
  {
    if s != [] {
      NumberNatural(s[..|s| - 1]);
    }
  }

  /** Every index of RFC 6901 is decoded to its number. */
  lemma RfcIndexDecodes(token: Str, rest: Str)
    requires RfcIndex(token).Some? && (rest == [] || rest[0] == SLASH)
    ensures ArrayIndex(token + rest) == RfcIndex(token)
  {
    var p := token + rest;
    AccumulatedDigits(token);
    RunCovers(p, 0, |token|);
    assert p[..|token|] == token;
  }

  lemma {:induction false} RunCovers(p: Str, i: nat, n: nat)
    requires i <= n <= |p| && (forall k | i <= k < n :: p[k] >= ZERO)
    requires (n < |p| ==> p[n] < ZERO)
    ensures RunEnd(p, i) == n
    decreases n - i
  {
    if i < n {
      RunCovers(p, i + 1, n);
    }
  }

  lemma DigitsIndex(n: nat)
    requires n < 0x1_0000_0000_0000_0000
    ensures RfcIndex(Digits(n)) == Some(n)
  {
    DigitsExact(n);
  }

  /**
   Which whole tokens the code takes for an index: beyond RFC 6901 also the empty one, and any bytes
   above '9' behind a leading digit.
   */
  lemma IndexAcceptedExactly(token: Str)
    requires SLASH !in token && NulFree(token)
    ensures ArrayIndex(token).Some?
       <==> token == [] ||
            (&& IsDigit(token[0]) && (token[0] == ZERO ==> |token| == 1)
             && forall k | 0 <= k < |token| :: token[k] >= ZERO)
  {
    if token != [] && IsDigit(token[0]) {
      var end := RunEnd(token, 0);
      if end < |token| {
        assert token[end] in token;
      }
      assert |token| > 1 ==> token[1] in token;
    }
  }

  lemma LetterTakenForIndex()
    ensures ArrayIndex([49, 97]) == Some(59) && RfcIndex([49, 97]) == None
  {
    RunCovers([49, 97], 0, 2);
    assert [49, 97][..2] == [49, 97] && [49, 97][..1] == [49] && [49][..0] == [];
    assert Accumulated([49]) == 1;
  }

  // ----- resolving -----

  function NodeAt(v: Json, position: seq<nat>): Option<Json>
    decreases position
  {
    if position == [] then Some(v)
    else
      match v
      case Array(items) => if position[0] < |items| then NodeAt(items[position[0]], position[1..]) else None
      case Object(members) =>
        if position[0] < |members| then NodeAt(members[position[0]].value, position[1..]) else None
      case _ => None
  }

  function Prefixed(prefix: seq<nat>, position: Option<seq<nat>>): Option<seq<nat>> {
    if position.None? then None else Some(prefix + position.value)
  }

  /** The first member whose key matches the next token, or the number of members. */
  function FindMatch(cased: bool, members: seq<Member>, pointer: Str): (k: nat)
    ensures k <= |members|
    ensures k < |members| ==> Matches(cased, members[k].key, pointer)
    ensures forall i | 0 <= i < k :: !Matches(cased, members[i].key, pointer)
  {
    if members == [] then 0
    else if Matches(cased, members[0].key, pointer) then 0
    else 1 + FindMatch(cased, members[1..], pointer)
  }

  /** The child the next token leads to. */
  function Step(cased: bool, v: Json, pointer: Str): (k: Option<nat>)
    ensures k.Some? ==> (v.Array? && k.value < |v.items|) || (v.Object? && k.value < |v.members|)
  {
    match v
    case Array(items) =>
      var index := ArrayIndex(pointer);
      if index.Some? && index.value < |items| then index else None
    case Object(members) =>
      var k := FindMatch(cased, members, pointer);
      if k < |members| then Some(k) else None
    case _ => None
  }

  function Child(v: Json, k: nat): (c: Json)
    requires (v.Array? && k < |v.items|) || (v.Object? && k < |v.members|)
    ensures Height(c) < Height(v)
  {
    match v
    case Array(items) => items[k]
    case Object(members) => members[k].value
  }

  /** `get_item_from_pointer`: where the pointer leads. */
  function Resolve(cased: bool, v: Json, pointer: Str): (position: Option<seq<nat>>)
    ensures position.Some? ==> NodeAt(v, position.value).Some?
    decreases |pointer|
  {
    if pointer == [] || pointer[0] != SLASH then Some([])
    else
      var k := Step(cased, v, pointer[1..]);
      if k.None? then None
      else
        var below := Resolve(cased, Child(v, k.value), Rest(pointer[1..]));
        assert below.Some? ==> ([k.value] + below.value)[1..] == below.value;
        Prefixed([k.value], below)
  }

  /** `get_item_from_pointer` as written, token by token. */
  method GetItemFromPointer(cased: bool, v: Json, pointer: Str) returns (position: Option<seq<nat>>)
    ensures position == Resolve(cased, v, pointer)
  {
    hide Step, Resolve, Rest;
    var current: Json, here: seq<nat> := v, [];
    var p := 0;
    assert pointer[0..] == pointer;
    PrefixedTwice([], [], Resolve(cased, v, pointer));
    while p < |pointer| && pointer[p] == SLASH
      invariant p <= |pointer|
      invariant Resolve(cased, v, pointer) == Prefixed(here, Resolve(cased, current, pointer[p..]))
      decreases |pointer| - p
    {
      ResolveStep(cased, current, pointer[p..]);
      assert pointer[p..][1..] == pointer[p + 1..];
      p := p + 1;
      var k := Step(cased, current, pointer[p..]);
      if k.None? {
        return None;
      }
      PrefixedTwice(here, [k.value], Resolve(cased, Child(current, k.value), Rest(pointer[p..])));
      current, here := Child(current, k.value), here + [k.value];
      ghost var start := p;
      while p < |pointer| && pointer[p] != SLASH
        invariant start <= p <= |pointer|
        invariant Rest(pointer[p..]) == Rest(pointer[start..])
      {
        SkipByte(pointer[p..]);
        assert pointer[p..][1..] == pointer[p + 1..];
        p := p + 1;
      }
      TokenAtEnd(pointer[p..]);
    }
    ResolveStep(cased, current, pointer[p..]);
    assert here + [] == here;
    return Some(here);
  }

  lemma ResolveStep(cased: bool, v: Json, pointer: Str)
    ensures Resolve(cased, v, pointer)
         == if pointer == [] || pointer[0] != SLASH then Some([])
            else
              var k := Step(cased, v, pointer[1..]);
              if k.None? then None else Prefixed([k.value], Resolve(cased, Child(v, k.value), Rest(pointer[1..])))
  {
  }

  lemma PrefixedTwice(a: seq<nat>, b: seq<nat>, position: Option<seq<nat>>)
    ensures Prefixed(a, Prefixed(b, position)) == Prefixed(a + b, position)
    ensures Prefixed([], position) == position
  {
    if position.Some? {
      assert a + (b + position.value) == a + b + position.value;
      assert [] + position.value == position.value;
    }
  }

  lemma SkipByte(s: Str)
    requires s != [] && s[0] != SLASH
    ensures Rest(s) == Rest(s[1..])
  {
  }

  lemma TokenAtEnd(s: Str)
    requires s == [] || s[0] == SLASH
    ensures Rest(s) == s
  {
  }

  // ----- constructing -----

  function TokenOf(v: Json, k: nat): Str
    requires (v.Array? && k < |v.items|) || (v.Object? && k < |v.members|)
  {
    if v.Array? then Digits(k) else Encode(v.members[k].key)
  }

  /** `cJSONUtils_FindPointerFromObjectTo`, from the node at `here`. */
  function FindPointer(v: Json, here: seq<nat>, target: seq<nat>): Option<Str>
    decreases Height(v), 1, 0
  {
    if here == target then Some([]) else FindAmong(v, 0, here, target)
  }

  /** Its loop over the children from the one at `k` on. */
  function FindAmong(v: Json, k: nat, here: seq<nat>, target: seq<nat>): Option<Str>
    decreases Height(v), 0, Count(v) - k
  {
    if k >= Count(v) then None
    else
      var found := FindPointer(Child(v, k), here + [k], target);
      if found.Some? then Some([SLASH] + TokenOf(v, k) + found.value) else FindAmong(v, k + 1, here, target)
  }

  function Count(v: Json): nat {
    match v
    case Array(items) => |items|
    case Object(members) => |members|
    case _ => 0
  }

  /** `cJSONUtils_FindPointerFromObjectTo` as written. */
  method FindPointerFromObjectTo(v: Json, here: seq<nat>, target: seq<nat>) returns (pointer: Option<Str>)
    ensures pointer == FindPointer(v, here, target)
    decreases Height(v)
  {
    if here == target {
      return Some([]);
    }
    var k := 0;
    while k < Count(v)
      invariant k <= Count(v)
      invariant FindPointer(v, here, target) == FindAmong(v, k, here, target)
    {
      var found := FindPointerFromObjectTo(Child(v, k), here + [k], target);
      if found.Some? {
        return Some([SLASH] + TokenOf(v, k) + found.value);
      }
      k := k + 1;
    }
    return None;
  }

  /** The pointer of sections 3 and 5 of RFC 6901 to a position. */
  function PointerTo(v: Json, position: seq<nat>): Str
    requires NodeAt(v, position).Some?
    decreases position
  {
    if position == [] then []
    else [SLASH] + TokenOf(v, position[0]) + PointerTo(Child(v, position[0]), position[1..])
  }

  ghost predicate Extends(target: seq<nat>, here: seq<nat>) {
    |here| <= |target| && target[..|here|] == here
  }

  /** The search finds a node exactly where it is, and yields the pointer to it. */
  lemma {:induction false} FindsTarget(v: Json, here: seq<nat>, target: seq<nat>)
    ensures !Extends(target, here) ==> FindPointer(v, here, target).None?
    ensures Extends(target, here) ==>
      var t := target[|here|..];
      FindPointer(v, here, target) == if NodeAt(v, t).Some? then Some(PointerTo(v, t)) else None
    decreases Height(v), 1, 0
  {
    hide Height;
    if here == target {
      assert target[|here|..] == [];
    } else {
      FindsAmong(v, 0, here, target);
    }
  }

  lemma {:induction false} FindsAmong(v: Json, k: nat, here: seq<nat>, target: seq<nat>)
    requires here != target
    ensures !Extends(target, here) ==> FindAmong(v, k, here, target).None?
    ensures Extends(target, here) ==>
      var t := target[|here|..];
      FindAmong(v, k, here, target) == if NodeAt(v, t).Some? && k <= t[0] then Some(PointerTo(v, t)) else None
    decreases Height(v), 0, Count(v) - k
  {
    hide Height;
    if k < Count(v) {
      var next := here + [k];
      FindsTarget(Child(v, k), next, target);
      FindsAmong(v, k + 1, here, target);
      ExtendsStep(target, here, k);
    }
  }

  lemma ExtendsStep(target: seq<nat>, here: seq<nat>, k: nat)
    ensures Extends(target, here + [k]) <==> Extends(target, here) && |target| > |here| && target[|here|] == k
    ensures Extends(target, here) && here != target ==> |target| > |here|
    ensures Extends(target, here + [k]) ==> target[|here|..][1..] == target[|here + [k]|..]
  {
    var next := here + [k];
    if Extends(target, next) {
      assert target[..|here|] == next[..|here|] == here;
      assert target[|here|] == target[..|next|][|here|] == k;
    }
    if Extends(target, here) && |target| > |here| {
      assert target[..|next|] == target[..|here|] + [target[|here|]];
    }
  }

  /** No array is longer than a `size_t` can count. */
  ghost predicate Addressable(v: Json) {
    match v
    case Array(items) => |items| <= 0x1_0000_0000_0000_0000 && forall i | 0 <= i < |items| :: Addressable(items[i])
    case Object(members) => forall i | 0 <= i < |members| :: Addressable(members[i].value)
    case _ => true
  }

  lemma {:induction false} TokenOfToken(t: Str, rest: Str)
    requires SLASH !in t && (rest == [] || rest[0] == SLASH)
    ensures Token(t + rest) == t && Rest(t + rest) == rest
  {
    if t == [] {
      assert t + rest == rest;
    } else {
      assert (t + rest)[1..] == t[1..] + rest;
      TokenOfToken(t[1..], rest);
    }
  }

  lemma NoSlashInDigits(n: nat)
    ensures SLASH !in Digits(n) && TILDE !in Digits(n)
  {
    var s := Digits(n);
    forall i | 0 <= i < |s| ensures s[i] != SLASH && s[i] != TILDE {
      assert IsDigit(s[i]);
    }
  }

  /** The token built for a child leads back to it. */
  lemma StepUndoesToken(v: Json, k: nat, rest: Str)
    requires Unique(true, v) && Addressable(v) && k < Count(v)
    requires (rest == [] || rest[0] == SLASH)
    ensures Step(true, v, TokenOf(v, k) + rest) == Some(k) && Rest(TokenOf(v, k) + rest) == rest
  {
    var p := TokenOf(v, k) + rest;
    match v
    case Array(items) =>
      DigitsIndex(k);
      RfcIndexDecodes(Digits(k), rest);
      NoSlashInDigits(k);
      TokenOfToken(Digits(k), rest);
    case Object(members) =>
      EncodeLaws(members[k].key);
      TokenOfToken(Encode(members[k].key), rest);
      hide Matches, Encode, Unescape, Unique;
      forall i | 0 <= i < |members| ensures Matches(true, members[i].key, p) <==> i == k {
        MatchesExactly(true, members[i].key, p);
      }
    case _ =>
  }

  lemma ChildKeeps(v: Json, position: seq<nat>)
    requires Unique(true, v) && Addressable(v) && position != [] && NodeAt(v, position).Some?
    ensures position[0] < Count(v)
    ensures var c := Child(v, position[0]);
      Unique(true, c) && Addressable(c) && NodeAt(v, position) == NodeAt(c, position[1..])
  {
  }

  lemma {:induction false} ResolveUndoesPointerTo(v: Json, position: seq<nat>)
    requires Unique(true, v) && Addressable(v) && NodeAt(v, position).Some?
    ensures position != [] ==> position[0] < Count(v)
    ensures Resolve(true, v, PointerTo(v, position)) == Some(position)
    ensures PointerTo(v, position) == [] || PointerTo(v, position)[0] == SLASH
    decreases position
  {
    hide Unique, Addressable, Step, TokenOf, Height, Resolve, Rest;
    ResolveStep(true, v, []);
    if position != [] {
      var k := position[0];
      ChildKeeps(v, position);
      var c := Child(v, k);
      ResolveUndoesPointerTo(c, position[1..]);
      var rest := PointerTo(c, position[1..]);
      StepUndoesToken(v, k, rest);
      var p := PointerTo(v, position);
      assert p == [SLASH] + TokenOf(v, k) + rest;
      hide PointerTo, NodeAt;
      assert p[1..] == TokenOf(v, k) + rest;
      ResolveStep(true, v, p);
      assert [k] + position[1..] == position;
    }
  }

  /** Resolving the pointer found for a node gives that node; a pointer is found for every node. */
  lemma PointerRoundTrip(v: Json, target: seq<nat>)
    requires Unique(true, v) && Addressable(v)
    ensures var p := FindPointer(v, [], target);
      && (p.Some? <==> NodeAt(v, target).Some?)
      && (p.Some? ==> Resolve(true, v, p.value) == Some(target))
  {
    FindsTarget(v, [], target);
    assert target[0..] == target;
    if NodeAt(v, target).Some? {
      ResolveUndoesPointerTo(v, target);
    }
  }

  // ----- decoding in place -----

  /** The string a buffer holds. */
  function CString(buffer: seq<byte>): Str {
    if buffer == [] || buffer[0] == 0 then [] else [buffer[0]] + CString(buffer[1..])
  }

  /** What `decode_pointer_inplace` leaves of a buffer, reading at `i` and writing at `d`. */
  function Decoding(buffer: seq<byte>, i: nat, d: nat): (r: seq<byte>)
    requires d <= i < |buffer| && buffer[|buffer| - 1] == 0
    ensures |r| == |buffer|
    decreases |buffer| - i
  {
    if buffer[i] == 0 then buffer[d := 0]
    else if buffer[i] != TILDE then Decoding(buffer, i + 1, d + 1)
    else if buffer[i + 1] == ZERO then Decoding(buffer[d := TILDE], i + 2, d + 1)
    else if buffer[i + 1] == ONE then Decoding(buffer[d + 1 := SLASH], i + 2, d + 1)
    else buffer
  }

  /** `decode_pointer_inplace` as written: it does not move plain bytes, and writes slashes one place too far. */
  method DecodePointerInPlace(text: array<byte>)
    requires text.Length > 0 && text[text.Length - 1] == 0
    modifies text
    ensures text[..] == Decoding(old(text[..]), 0, 0)
  {
    var i, d := 0, 0;
    while text[i] != 0
      invariant d <= i < text.Length && text[text.Length - 1] == 0
      invariant Decoding(text[..], i, d) == Decoding(old(text[..]), 0, 0)
      decreases text.Length - i
    {
      ghost var was := text[..];
      if text[i] == TILDE {
        if text[i + 1] == ZERO {
          text[d] := TILDE;
          assert text[..] == was[d := TILDE];
        } else if text[i + 1] == ONE {
          text[d + 1] := SLASH;
          assert text[..] == was[d + 1 := SLASH];
        } else {
          return;
        }
        i := i + 1;
      }
      i, d := i + 1, d + 1;
    }
    ghost var was := text[..];
    text[d] := 0;
    assert text[..] == was[d := 0];
  }

  /** The string that decoding in place makes of a string. */
  function InPlace(s: Str): Str {
    CString(Decoding(s + [0], 0, 0))
  }

  lemma {:induction false} CStringOf(buffer: seq<byte>, n: nat)
    requires n < |buffer| && buffer[n] == 0 && forall p | 0 <= p < n :: buffer[p] != 0
    ensures CString(buffer) == buffer[..n]
  {
    if n > 0 {
      CStringOf(buffer[1..], n - 1);
    }
  }

  lemma {:induction false} DecodingKeeps(buffer: seq<byte>, i: nat)
    requires i < |buffer| && buffer[|buffer| - 1] == 0
    requires forall p | i <= p < |buffer| - 1 :: buffer[p] != 0 && buffer[p] != TILDE
    ensures Decoding(buffer, i, i) == buffer
    decreases |buffer| - i
  {
    if buffer[i] != 0 {
      DecodingKeeps(buffer, i + 1);
    }
  }

  /** Without a tilde nothing changes. */
  lemma PlainStays(s: Str)
    requires NulFree(s) && TILDE !in s
    ensures InPlace(s) == s
  {
    var buffer := s + [0];
    forall p | 0 <= p < |s| ensures buffer[p] != 0 && buffer[p] != TILDE {
      assert buffer[p] == s[p] && s[p] in s;
    }
    DecodingKeeps(buffer, 0);
    CStringOf(buffer, |s|);
  }

  /** The byte that ends up at `p`, for the escaped key `k` read from its byte `d` on. */
  function Decoded(k: Str, buffer: seq<byte>, d: nat, p: nat): byte
    requires p < |buffer| && p < |k|
  {
    if p < d then buffer[p]
    else if k[p] == TILDE then TILDE
    else if p > d && k[p - 1] == SLASH then SLASH
    else buffer[p]
  }

  /** The buffer after the byte `k[d]` has been decoded at `d`. */
  function Next(k: Str, buffer: seq<byte>, d: nat): (r: seq<byte>)
    requires d < |k| && d + 1 < |buffer|
    ensures |r| == |buffer|
  {
    if k[d] == TILDE then buffer[d := TILDE] else if k[d] == SLASH then buffer[d + 1 := SLASH] else buffer
  }

  lemma TailSplits(buffer: seq<byte>, i: nat, piece: seq<byte>, rest: seq<byte>)
    requires i <= |buffer| && buffer[i..] == piece + rest
    ensures i + |piece| <= |buffer| && buffer[i + |piece|..] == rest
    ensures forall j | 0 <= j < |piece| :: buffer[i + j] == piece[j]
    ensures rest != [] ==> buffer[|buffer| - 1] == rest[|rest| - 1]
  {
    assert |buffer[i..]| == |buffer| - i;
    forall j | 0 <= j < |piece| ensures buffer[i + j] == piece[j] {
      assert buffer[i..][j] == buffer[i + j];
    }
    assert buffer[i + |piece|..] == buffer[i..][|piece|..];
    if rest != [] {
      assert buffer[i + |piece|..][|rest| - 1] == rest[|rest| - 1];
    }
  }

  lemma DecodingStep(k: Str, buffer: seq<byte>, i: nat, d: nat)
    requires NulFree(k) && d < |k| && d <= i < |buffer| && buffer[i..] == Encode(k[d..]) + [0]
    ensures var n := i + |Escaped(k[d])|;
      && n < |buffer| && Next(k, buffer, d)[n..] == Encode(k[d + 1..]) + [0]
      && buffer[|buffer| - 1] == 0 && Next(k, buffer, d)[|buffer| - 1] == 0
      && Decoding(buffer, i, d) == Decoding(Next(k, buffer, d), n, d + 1)
  {
    EncodeStep(k, d);
    var c := k[d];
    assert c in k && c != 0;
    var rest := Encode(k[d + 1..]);
    hide Encode, NulFree, Decoding;
    assert Escaped(c) + rest + [0] == Escaped(c) + (rest + [0]);
    TailSplits(buffer, i, Escaped(c), rest + [0]);
    var n := i + |Escaped(c)|;
    assert Next(k, buffer, d)[n..] == buffer[n..];
    assert buffer[i + 0] == Escaped(c)[0];
    DecodingUnfolds(k, buffer, i, d);
  }

  lemma DecodingUnfolds(k: Str, buffer: seq<byte>, i: nat, d: nat)
    requires d < |k| && d <= i && i + |Escaped(k[d])| < |buffer| && buffer[|buffer| - 1] == 0
    requires Next(k, buffer, d)[|buffer| - 1] == 0
    requires k[d] != 0 && buffer[i] == Escaped(k[d])[0]
    requires (|Escaped(k[d])| == 2 ==> buffer[i + 1] == Escaped(k[d])[1])
    ensures Decoding(buffer, i, d) == Decoding(Next(k, buffer, d), i + |Escaped(k[d])|, d + 1)
  {
  }

  lemma DecodedStep(k: Str, buffer: seq<byte>, d: nat)
    requires d < |k| && |k| < |buffer|
    ensures forall p | 0 <= p < |k| :: Decoded(k, Next(k, buffer, d), d + 1, p) == Decoded(k, buffer, d, p)
  {
  }

  lemma {:induction false} DecodingOfEncoded(k: Str, buffer: seq<byte>, i: nat, d: nat)
    requires NulFree(k) && d <= |k| && d <= i < |buffer| && buffer[i..] == Encode(k[d..]) + [0]
    ensures buffer[|buffer| - 1] == 0 && |k| - d <= |buffer| - i - 1
    ensures var f := Decoding(buffer, i, d); f[|k|] == 0 && forall p | 0 <= p < |k| :: f[p] == Decoded(k, buffer, d, p)
    decreases |k| - d
  {
    if d == |k| {
      EncodeNothing(k[d..]);
      TailSplits(buffer, i, [0], []);
    } else {
      hide Decoding, Encode, Decoded, Next, NulFree, Escaped;
      DecodingStep(k, buffer, i, d);
      DecodingOfEncoded(k, Next(k, buffer, d), i + |Escaped(k[d])|, d + 1);
      DecodedStep(k, buffer, d);
    }
  }

  /** The bytes that decoding an escaped key in place leaves. */
  lemma InPlaceBytes(k: Str)
    requires NulFree(k)
    ensures |k| <= |Encode(k)| && Leaves(k, Encode(k), InPlace(Encode(k)))
  {
    var e := Encode(k);
    var buffer := e + [0];
    hide Encode, Decoding, CString;
    EncodeLaws(k);
    assert k[0..] == k && buffer[0..] == buffer;
    DecodingOfEncoded(k, buffer, 0, 0);
    EncodedBytes(k);
    var f := Decoding(buffer, 0, 0);
    assert forall p | 0 <= p < |k| :: f[p] != 0 && buffer[p] == e[p];
    CStringOf(f, |k|);
    forall p | 0 <= p < |k| ensures f[..|k|][p] == Decoded(k, e, 0, p) {
      assert f[p] == Decoded(k, buffer, 0, p);
    }
  }

  lemma EncodedBytes(k: Str)
    requires NulFree(k)
    ensures var e := Encode(k); forall p | 0 <= p < |e| :: e[p] != 0 && e[p] != SLASH
  {
    EncodeLaws(k);
    hide Encode;
    forall p | 0 <= p < |Encode(k)| ensures Encode(k)[p] != 0 && Encode(k)[p] != SLASH {
      assert Encode(k)[p] in Encode(k);
    }
  }

  /** The bytes `r` that decoding in place makes of `e`, the escaped form of `k`. */
  ghost predicate Leaves(k: Str, e: Str, r: Str) {
    && |r| == |k| <= |e|
    && (forall p | 0 <= p < |k| :: e[p] != SLASH)
    && forall p | 0 <= p < |k| :: r[p] == Decoded(k, e, 0, p)
  }

  lemma LeavesSame(k: Str, e: Str, r: Str)
    requires Leaves(k, e, r)
    ensures r == k <==> SLASH !in k && forall p | 0 <= p < |k| :: k[p] != TILDE ==> e[p] == k[p]
  {
    if SLASH in k {
      FirstSlash(k);
      var p :| 0 <= p < |k| && k[p] == SLASH && (p > 0 ==> k[p - 1] != SLASH);
      assert r[p] != k[p];
    } else {
      NoSlashLeaves(k, e, r);
      if forall p | 0 <= p < |k| :: k[p] != TILDE ==> e[p] == k[p] {
        assert r == k;
      }
    }
  }

  lemma NoSlashLeaves(k: Str, e: Str, r: Str)
    requires Leaves(k, e, r) && SLASH !in k
    ensures forall p | 0 <= p < |k| :: r[p] == if k[p] == TILDE then TILDE else e[p]
  {
    forall p | 0 <= p < |k| ensures r[p] == if k[p] == TILDE then TILDE else e[p] {
      assert p > 0 ==> k[p - 1] in k;
    }
  }

  /**
   Decoding in place undoes escaping exactly if there is no slash and every other plain byte stands
   where its escaped form has it.
   */
  lemma InPlaceUndoesExactly(k: Str)
    requires NulFree(k)
    ensures |k| <= |Encode(k)|
    ensures InPlace(Encode(k)) == k
       <==> SLASH !in k && forall p | 0 <= p < |k| :: k[p] != TILDE ==> Encode(k)[p] == k[p]
  {
    hide *;
    InPlaceBytes(k);
    LeavesSame(k, Encode(k), InPlace(Encode(k)));
  }

  /** A key that decoding in place changes is changed by more than the case of its letters. */
  lemma ChangedBeyondCase(k: Str)
    requires NulFree(k) && Fold(false, InPlace(Encode(k))) == Fold(false, k)
    ensures InPlace(Encode(k)) == k
  {
    var r := InPlace(Encode(k));
    InPlaceBytes(k);
    hide Encode, InPlace, Leaves, Lower;
    forall p | 0 <= p < |k| ensures |r| == |k| && Lower(r[p]) == Lower(k[p]) {
      assert Fold(false, r)[p] == Fold(false, k)[p];
    }
    LeavesNoSlash(k, Encode(k), r);
    assert k[..|k|] == k && r[..|k|] == r;
    SameBytes(k, r, |k|);
  }

  lemma LeavesNoSlash(k: Str, e: Str, r: Str)
    requires Leaves(k, e, r) && forall p | 0 <= p < |k| :: Lower(r[p]) == Lower(k[p])
    ensures SLASH !in k
    ensures forall p | 0 <= p < |k| :: r[p] == if k[p] == TILDE then TILDE else e[p]
  {
    if SLASH in k {
      FirstSlash(k);
      var p :| 0 <= p < |k| && k[p] == SLASH && (p > 0 ==> k[p - 1] != SLASH);
      assert false;
    } else {
      NoSlashLeaves(k, e, r);
    }
  }

  /** Only tildes and zeros from `i` on, as behind the first tilde of a key that keeps its bytes. */
  predicate Marks(e: Str, i: nat) {
    forall j | i <= j < |e| :: e[j] == TILDE || e[j] == ZERO
  }

  predicate Shifted(s: Str, e: Str) {
    |e| > |s| && exists i: nat :: i < |s| && Marks(e, i)
  }

  lemma {:induction false} SameBytes(k: Str, r: Str, n: nat)
    requires n <= |k| == |r| <= |Encode(k)|
    requires SLASH !in k
    requires forall p | 0 <= p < |k| :: Lower(r[p]) == Lower(k[p])
    requires forall p | 0 <= p < |k| :: r[p] == if k[p] == TILDE then TILDE else Encode(k)[p]
    ensures r[..n] == k[..n]
    ensures Encode(k[..n]) == k[..n] || Shifted(k[..n], Encode(k[..n]))
  {
    hide Encode, Lower, Marks;
    if n == 0 {
      EncodeNothing(k[..n]);
    } else {
      SameBytes(k, r, n - 1);
      EncodeAround(k, n - 1);
      var s, c, e := k[..n - 1], k[n - 1], Encode(k[..n - 1]);
      assert Encode(k)[n - 1] == (e + Escaped(c))[n - 1];
      SameByte(s, c, e, r[n - 1]);
      assert k[..n] == s + [c] && r[..n] == r[..n - 1] + [r[n - 1]];
    }
  }

  lemma SameByte(s: Str, c: byte, e: Str, b: byte)
    requires c != SLASH && Lower(b) == Lower(c) && |e| >= |s|
    requires b == if c == TILDE then TILDE else (e + Escaped(c))[|s|]
    requires e == s || Shifted(s, e)
    ensures b == c
    ensures e + Escaped(c) == s + [c] || Shifted(s + [c], e + Escaped(c))
  {
    if e == s {
      if c == TILDE {
        assert Marks(e + Escaped(c), |s|);
      }
    } else {
      var i: nat :| i < |s| && Marks(e, i);
      assert (e + Escaped(c))[|s|] == e[|s|];
      assert b == c && (c == TILDE || c == ZERO);
      assert Marks(e + Escaped(c), i);
    }
  }

  lemma {:induction false} EncodeConcat(a: Str, b: Str)
    ensures Encode(a + b) == Encode(a) + Encode(b)
  {
    if a == [] {
      assert a + b == b;
    } else {
      assert (a + b)[0] == a[0] && (a + b)[1..] == a[1..] + b;
      EncodeConcat(a[1..], b);
    }
  }

  lemma EncodeAround(k: Str, i: nat)
    requires i < |k|
    ensures Encode(k) == Encode(k[..i]) + Escaped(k[i]) + Encode(k[i + 1..])
    ensures Encode(k[..i + 1]) == Encode(k[..i]) + Escaped(k[i])
  {
    hide *;
    EncodeSplit(k, i);
    var front := k[..i + 1];
    EncodeSplit(front, i);
    assert front[..i] == k[..i];
    EncodeNothing(front[i + 1..]);
    assert Encode(k[..i]) + Escaped(k[i]) + [] == Encode(k[..i]) + Escaped(k[i]);
  }

  lemma EncodeSplit(k: Str, i: nat)
    requires i < |k|
    ensures Encode(k) == Encode(k[..i]) + Escaped(k[i]) + Encode(k[i + 1..])
  {
    hide *;
    EncodeStep(k, i);
    EncodeConcat(k[..i], k[i..]);
    assert k == k[..i] + k[i..];
  }

  lemma {:induction false} FirstSlash(k: Str)
    requires SLASH in k
    ensures exists p :: 0 <= p < |k| && k[p] == SLASH && (p > 0 ==> k[p - 1] != SLASH)
  {
    if k[0] != SLASH {
      FirstSlash(k[1..]);
      var p :| 0 <= p < |k[1..]| && k[1..][p] == SLASH && (p > 0 ==> k[1..][p - 1] != SLASH);
      assert k[p + 1] == SLASH && k[p] != SLASH;
    }
  }
}
