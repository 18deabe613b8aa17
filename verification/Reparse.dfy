/**
 What the parser accepts can be printed: an accepted tree is nested no deeper than the parser's own limit,
 its strings hold no NUL because they are C strings, and its numbers are printed back if they are integers.
 These are the conditions under which the printed text is parsed back, so an accepted tree is stable under
 printing and parsing.
 */
module Reparse {
  import opened Prelude
  import opened Json
  import opened StringCodec
  import opened Parser
  import opened PrintText

  /** Every number of `v` is an integer in `int` range. */
  predicate OnlyIntegers(v: Json)
    decreases v, 1
  {
    match v
    case Real(_) => false
    case Array(items) => forall i | 0 <= i < |items| :: OnlyIntegers(items[i])
    case Object(members) => OnlyIntegerMembers(members)
    case _ => true
  }

  predicate OnlyIntegerMembers(members: seq<Member>)
    decreases members, 0
  {
    forall i | 0 <= i < |members| :: OnlyIntegers(members[i].value)
  }

  /** What is accepted below `depth` lists is nested no deeper than the limit, and can be printed. */
  ghost predicate Accepted(v: Json, depth: nat) {
    depth + Nesting(v) <= NESTING_LIMIT && (OnlyIntegers(v) ==> Printable(v))
  }

  lemma {:induction false} ValueAccepted(c: Str, o: nat, depth: nat)
    requires o <= |c| && depth <= NESTING_LIMIT && ValueAt(c, o, depth).Some?
    ensures Accepted(ValueAt(c, o, depth).value.value, depth)
    decreases |c| - o, 0
  {
    hide Skip, ItemsAt, MembersAt, ValueAt;
    var v := ValueAt(c, o, depth).value.value;
    if v.Array? {
      ArrayStarts(c, o, depth);
      if v.items != [] {
        ItemsAccepted(c, Skip(c, o + 1), depth + 1);
      } else {
        assert NestingOfItems(v.items) == 0;
      }
      ArrayParts(v);
    } else if v.Object? {
      ObjectStarts(c, o, depth);
      if v.members != [] {
        MembersAccepted(c, Skip(c, o + 1), depth + 1);
      } else {
        NoMembersNested();
      }
      ObjectParts(v);
    } else {
      ScalarAccepted(c, o, depth);
    }
  }

  lemma ArrayParts(v: Json)
    requires v.Array?
    ensures Nesting(v) == 1 + NestingOfItems(v.items)
    ensures OnlyIntegers(v) <==> forall i | 0 <= i < |v.items| :: OnlyIntegers(v.items[i])
    ensures Printable(v) <==> forall i | 0 <= i < |v.items| :: Printable(v.items[i])
  {
    hide NestingOfItems;
  }

  lemma ObjectParts(v: Json)
    requires v.Object?
    ensures Nesting(v) == 1 + NestingOfMembers(v.members)
    ensures OnlyIntegers(v) <==> OnlyIntegerMembers(v.members)
    ensures Printable(v) <==> PrintableMembers(v.members)
  {
    hide NestingOfMembers, OnlyIntegerMembers, PrintableMembers;
  }

  lemma ScalarAccepted(c: Str, o: nat, depth: nat)
    requires o <= |c| && depth <= NESTING_LIMIT && ValueAt(c, o, depth).Some?
    requires !ValueAt(c, o, depth).value.value.Array? && !ValueAt(c, o, depth).value.value.Object?
    ensures Accepted(ValueAt(c, o, depth).value.value, depth)
  {
    hide StrtodLength, NumberEnd, Skip, ItemsAt, MembersAt, StartsWith, Decode, Scan, CString;
  }

  lemma ArrayStarts(c: Str, o: nat, depth: nat)
    requires o <= |c| && ValueAt(c, o, depth).Some? && ValueAt(c, o, depth).value.value.Array?
    ensures ByteIs(c, o, OPEN_BRACKET) && depth < NESTING_LIMIT
    ensures var v, p := ValueAt(c, o, depth).value.value, Skip(c, o + 1);
      v.items != [] ==> ItemsAt(c, p, depth + 1).Some? && v.items == ItemsAt(c, p, depth + 1).value.value
  {
    hide StringAt, StrtodLength, NumberEnd, Skip, ItemsAt, MembersAt, StartsWith;
  }

  lemma ObjectStarts(c: Str, o: nat, depth: nat)
    requires o <= |c| && ValueAt(c, o, depth).Some? && ValueAt(c, o, depth).value.value.Object?
    ensures ByteIs(c, o, OPEN_BRACE) && depth < NESTING_LIMIT
    ensures var v, p := ValueAt(c, o, depth).value.value, Skip(c, o + 1);
      v.members != [] ==> MembersAt(c, p, depth + 1).Some? && v.members == MembersAt(c, p, depth + 1).value.value
  {
    hide StringAt, StrtodLength, NumberEnd, Skip, ItemsAt, MembersAt, StartsWith;
  }

  lemma {:induction false} ItemsAccepted(c: Str, p: nat, depth: nat)
    requires p <= |c| && depth <= NESTING_LIMIT && ItemsAt(c, p, depth).Some?
    ensures var items := ItemsAt(c, p, depth).value.value;
      && depth + NestingOfItems(items) <= NESTING_LIMIT
      && forall i | 0 <= i < |items| :: OnlyIntegers(items[i]) ==> Printable(items[i])
    decreases |c| - p, 1
  {
    hide ValueAt, Skip, Printable, OnlyIntegers, Nesting;
    ValueAccepted(c, Skip(c, p), depth);
    var first := ValueAt(c, Skip(c, p), depth).value;
    var q := Skip(c, first.next);
    if ByteIs(c, q, COMMA) {
      ItemsAccepted(c, q + 1, depth);
    } else {
      assert NestingOfItems([first.value]) == Nesting(first.value);
    }
  }

  lemma {:induction false} MembersAccepted(c: Str, p: nat, depth: nat)
    requires p <= |c| && depth <= NESTING_LIMIT && MembersAt(c, p, depth).Some?
    ensures var members := MembersAt(c, p, depth).value.value;
      && depth + NestingOfMembers(members) <= NESTING_LIMIT
      && (OnlyIntegerMembers(members) ==> PrintableMembers(members))
    decreases |c| - p, 1
  {
    hide ValueAt, Skip, Printable, OnlyIntegers, Nesting, NameAt, NulFree, PrintableMembers,
        OnlyIntegerMembers, NestingOfMembers;
    NameNulFree(c, p);
    var name := NameAt(c, p).value;
    ValueAccepted(c, Skip(c, name.next), depth);
    var value := ValueAt(c, Skip(c, name.next), depth).value;
    var m, q := Member(name.value, value.value), Skip(c, value.next);
    if ByteIs(c, q, COMMA) {
      MembersAccepted(c, q + 1, depth);
      MemberBefore(m, MembersAt(c, q + 1, depth).value.value);
    } else {
      MemberBefore(m, []);
      assert [m] + [] == [m];
      NoMembersNested();
    }
  }

  lemma NameNulFree(c: Str, p: nat)
    requires p <= |c| && NameAt(c, p).Some?
    ensures NulFree(NameAt(c, p).value.value)
  {
    hide Skip, Decode, Scan;
  }

  lemma NoMembersNested()
    ensures NestingOfMembers([]) == 0 && PrintableMembers([])
  {
  }

  lemma MemberBefore(m: Member, rest: seq<Member>)
    ensures var a, b := Nesting(m.value), NestingOfMembers(rest); NestingOfMembers([m] + rest) == if a < b then b else a
    ensures OnlyIntegerMembers([m] + rest) ==> OnlyIntegers(m.value) && OnlyIntegerMembers(rest)
    ensures NulFree(m.key) && Printable(m.value) && PrintableMembers(rest) ==> PrintableMembers([m] + rest)
  {
    hide Printable, OnlyIntegers, Nesting, NulFree;
    var members := [m] + rest;
    assert members[0] == m && members[1..] == rest;
    assert forall i | 0 <= i < |rest| :: members[i + 1] == rest[i];
  }
}
