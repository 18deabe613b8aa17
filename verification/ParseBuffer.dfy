/**
 The parser of cJSON.c as written: methods that advance the offset and depth of one buffer object, one for
 each of its functions. Each is proved to leave the offset, the depth and the value that the parser's
 function on byte and offset says.
 */
module ParseBuffer {
  import opened Prelude
  import opened Decimal
  import opened Json
  import opened StringCodec
  import opened Parser

  /** What is parsed from `items` and the rest of the list. */
  function Joined<T>(items: seq<T>, rest: Option<Parsed<seq<T>>>): Option<Parsed<seq<T>>> {
    if rest.None? then None else Some(Parsed(items + rest.value.value, rest.value.next))
  }

  lemma JoinedStep<T>(items: seq<T>, item: T, rest: Option<Parsed<seq<T>>>)
    ensures Joined(items, Joined([item], rest)) == Joined(items + [item], rest)
    ensures Joined([], rest) == rest
  {
    if rest.Some? {
      assert items + ([item] + rest.value.value) == items + [item] + rest.value.value;
      assert [] + rest.value.value == rest.value.value;
    }
  }

  class ParseBuffer {
    const content: Str
    var offset: nat
    var depth: nat

    ghost predicate Valid()
      reads this
    {
      offset <= |content|
    }

    constructor (content: Str)
      ensures Valid() && this.content == content && offset == 0 && depth == 0
    {
      this.content, offset, depth := content, 0, 0;
    }

    /** `buffer_at_offset(buffer)[0]` compared, if it can be accessed. */
    predicate At(b: byte)
      reads this
    {
      ByteIs(content, offset, b)
    }

    /** `buffer_skip_whitespace`. */
    method SkipWhitespace()
      requires Valid()
      modifies this`offset
      ensures Valid() && offset == Skip(content, old(offset))
    {
      if offset >= |content| {
        return;
      }
      while offset < |content| && content[offset] <= 32
        invariant old(offset) <= offset <= |content|
        invariant SkipBlank(content, offset) == SkipBlank(content, old(offset))
      {
        offset := offset + 1;
      }
      if offset == |content| {
        offset := offset - 1;
      }
    }

    /** `parse_number`: the copy for `strtod`, and the offset behind what it took. */
    method ParseNumber() returns (item: Option<Json>)
      requires Valid()
      modifies this`offset
      ensures var r := NumberAt(content, old(offset));
        if r.None? then item == None else item == Some(r.value.value) && offset == r.value.next
      ensures Valid()
    {
      hide StrtodLength, NumberItem, NumberByte;
      var i := 0;
      while i < 63 && offset + i < |content| && NumberByte(content[offset + i])
        invariant 0 <= i <= 63 && offset + i <= |content|
        invariant NumberEnd(content, offset + i, 63 - i) == NumberEnd(content, offset, 63)
      {
        i := i + 1;
      }
      assert NumberEnd(content, offset + i, 63 - i) == offset + i;
      var copy := content[offset..offset + i];
      var taken := StrtodLength(copy);
      if taken == 0 {
        return None;
      }
      item := Some(NumberItem(copy[..taken]));
      offset := offset + taken;
    }

    /** `parse_string` at the offset. */
    method ParseStringItem() returns (s: Option<Str>)
      requires offset < |content|
      modifies this`offset
      ensures var r := StringAt(content, old(offset));
        if r.None? then s == None else s == Some(r.value.value) && offset == r.value.next
      ensures Valid()
    {
      var r := ParseString(content, offset);
      if r.None? {
        return None;
      }
      s := Some(r.value.value);
      offset := r.value.next;
    }

    /** `parse_value`. */
    method ParseValue() returns (item: Option<Json>)
      requires Valid()
      modifies this
      ensures var r := ValueAt(content, old(offset), old(depth));
        && (item.Some? <==> r.Some?)
        && (r.Some? ==> item == Some(r.value.value) && offset == r.value.next && depth == old(depth))
      ensures Valid()
      decreases |content| - offset, 0
    {
      hide ArrayAt, ObjectAt, NumberAt, StringAt;
      if offset + 4 <= |content| && content[offset..offset + 4] == NULL_WORD {
        item, offset := Some(Null), offset + 4;
      } else if offset + 5 <= |content| && content[offset..offset + 5] == FALSE_WORD {
        item, offset := Some(False), offset + 5;
      } else if offset + 4 <= |content| && content[offset..offset + 4] == TRUE_WORD {
        item, offset := Some(True), offset + 4;
      } else if At(QUOTE) {
        var s := ParseStringItem();
        item := if s.None? then None else Some(String(s.value));
      } else if offset < |content| && (content[offset] == MINUS || IsDigit(content[offset])) {
        item := ParseNumber();
      } else if At(OPEN_BRACKET) {
        item := ParseArray();
      } else if At(OPEN_BRACE) {
        item := ParseObject();
      } else {
        item := None;
      }
    }

    /** `parse_array`. */
    method ParseArray() returns (item: Option<Json>)
      requires Valid() && At(OPEN_BRACKET)
      modifies this
      ensures var r := ArrayAt(content, old(offset), old(depth));
        && (item.Some? <==> r.Some?)
        && (r.Some? ==> item == Some(r.value.value) && offset == r.value.next && depth == old(depth))
      ensures Valid()
      decreases |content| - offset - 1, 2
    {
      hide ItemsAt, ValueAt;
      if depth >= NESTING_LIMIT {
        return None;
      }
      depth := depth + 1;
      offset := offset + 1;
      SkipWhitespace();
      var items := [];
      if !At(CLOSE_BRACKET) {
        if offset >= |content| {
          return None;
        }
        var found := ParseItems();
        if found.None? {
          return None;
        }
        items := found.value;
      }
      depth := depth - 1;
      offset := offset + 1;
      item := Some(Array(items));
    }

    /** Its loop; it ends on the closing bracket. */
    method ParseItems() returns (items: Option<seq<Json>>)
      requires offset < |content|
      modifies this
      ensures var r := ItemsAt(content, old(offset), old(depth));
        && (items.Some? <==> r.Some?)
        && (r.Some? ==> items == Some(r.value.value) && offset + 1 == r.value.next && depth == old(depth))
      ensures Valid()
      decreases |content| - offset, 1
    {
      hide ItemsAt, ValueAt, Skip;
      var found: seq<Json> := [];
      var start := offset;
      JoinedStep(found, Null, ItemsAt(content, start, depth));
      while true
        invariant Valid() && old(offset) <= start == offset && depth == old(depth)
        invariant ItemsAt(content, old(offset), depth) == Joined(found, ItemsAt(content, start, depth))
        decreases |content| - offset
      {
        ItemsUnfold(content, start, depth);
        SkipWhitespace();
        var item := ParseValue();
        if item.None? {
          return None;
        }
        SkipWhitespace();
        if At(COMMA) {
          JoinedStep(found, item.value, ItemsAt(content, offset + 1, depth));
        }
        found := found + [item.value];
        if !At(COMMA) {
          break;
        }
        offset := offset + 1;
        start := offset;
      }
      if !At(CLOSE_BRACKET) {
        return None;
      }
      items := Some(found);
    }

    /** `parse_object`. */
    method ParseObject() returns (item: Option<Json>)
      requires Valid() && At(OPEN_BRACE)
      modifies this
      ensures var r := ObjectAt(content, old(offset), old(depth));
        && (item.Some? <==> r.Some?)
        && (r.Some? ==> item == Some(r.value.value) && offset == r.value.next && depth == old(depth))
      ensures Valid()
      decreases |content| - offset - 1, 2
    {
      hide MembersAt, ValueAt;
      if depth >= NESTING_LIMIT {
        return None;
      }
      depth := depth + 1;
      offset := offset + 1;
      SkipWhitespace();
      var members := [];
      if !At(CLOSE_BRACE) {
        if offset >= |content| {
          return None;
        }
        var found := ParseMembers();
        if found.None? {
          return None;
        }
        members := found.value;
      }
      depth := depth - 1;
      offset := offset + 1;
      item := Some(Object(members));
    }

    /** Its loop; it ends on the closing brace. */
    method ParseMembers() returns (members: Option<seq<Member>>)
      requires offset < |content|
      modifies this
      ensures var r := MembersAt(content, old(offset), old(depth));
        && (members.Some? <==> r.Some?)
        && (r.Some? ==> members == Some(r.value.value) && offset + 1 == r.value.next && depth == old(depth))
      ensures Valid()
      decreases |content| - offset, 1
    {
      hide MembersAt, ValueAt, Skip, NameAt;
      var found: seq<Member> := [];
      var start := offset;
      JoinedStep(found, Member([], Null), MembersAt(content, start, depth));
      while true
        invariant Valid() && old(offset) <= start == offset && depth == old(depth)
        invariant MembersAt(content, old(offset), depth) == Joined(found, MembersAt(content, start, depth))
        decreases |content| - offset
      {
        MembersUnfold(content, start, depth);
        var name := ParseName();
        if name.None? {
          return None;
        }
        SkipWhitespace();
        var item := ParseValue();
        if item.None? {
          return None;
        }
        var m := Member(name.value, item.value);
        SkipWhitespace();
        if At(COMMA) {
          JoinedStep(found, m, MembersAt(content, offset + 1, depth));
        }
        found := found + [m];
        if !At(COMMA) {
          break;
        }
        offset := offset + 1;
        start := offset;
      }
      if !At(CLOSE_BRACE) {
        return None;
      }
      members := Some(found);
    }

    /** The name of a member and the colon behind it. */
    method ParseName() returns (name: Option<Str>)
      requires Valid()
      modifies this`offset
      ensures var r := NameAt(content, old(offset));
        && (name.Some? <==> r.Some?)
        && (r.Some? ==> name == Some(r.value.value) && offset == r.value.next)
      ensures Valid()
    {
      hide Skip, StringAt;
      if offset >= |content| {
        return None;
      }
      SkipWhitespace();
      SkipInside(content, old(offset));
      name := ParseStringItem();
      if name.None? {
        return None;
      }
      SkipWhitespace();
      if !At(COLON) {
        return None;
      }
      offset := offset + 1;
    }

    /** `cJSON_ParseWithLengthOpts`, up to the reported error position. */
    method ParseWithLengthOpts(requireEnd: bool) returns (item: Option<Json>)
      requires offset == 0 && depth == 0
      modifies this
      ensures var r := Parse(content, requireEnd);
        && (item.Some? <==> r.Some?)
        && (r.Some? ==> item == Some(r.value.value) && offset == r.value.next)
    {
      hide ValueAt, Skip;
      if |content| == 0 {
        return None;
      }
      if |content| > 4 && content[0] == 0xEF && content[1] == 0xBB && content[2] == 0xBF {
        offset := 3;
      }
      SkipWhitespace();
      item := ParseValue();
      if item.None? {
        return;
      }
      if requireEnd {
        SkipWhitespace();
        if !At(0) {
          return None;
        }
      }
    }
  }

  lemma SkipInside(c: Str, o: nat)
    requires o < |c|
    ensures Skip(c, o) < |c|
  {
  }

  lemma ItemsUnfold(c: Str, p: nat, depth: nat)
    requires p <= |c|
    ensures ItemsAt(c, p, depth)
         == var first := ValueAt(c, Skip(c, p), depth);
            if first.None? then None
            else
              var q := Skip(c, first.value.next);
              if ByteIs(c, q, COMMA) then Joined([first.value.value], ItemsAt(c, q + 1, depth))
              else if ByteIs(c, q, CLOSE_BRACKET) then Some(Parsed([first.value.value], q + 1))
              else None
  {
    hide ValueAt, Skip;
  }

  lemma MembersUnfold(c: Str, p: nat, depth: nat)
    requires p <= |c|
    ensures MembersAt(c, p, depth)
         == var name := NameAt(c, p);
            if name.None? then None
            else
              var value := ValueAt(c, Skip(c, name.value.next), depth);
              if value.None? then None
              else
                var m, q := Member(name.value.value, value.value.value), Skip(c, value.value.next);
                if ByteIs(c, q, COMMA) then Joined([m], MembersAt(c, q + 1, depth))
                else if ByteIs(c, q, CLOSE_BRACE) then Some(Parsed([m], q + 1))
                else None
  {
    hide ValueAt, Skip, NameAt;
  }
}
