/**
 The growing-buffer printer of cJSON.c as written, and the exact size it needs. Every piece of text goes
 through `ensure`, with the number of bytes the code asks for there, and `update_offset` follows it; a
 print succeeds exactly if the text and two more bytes fit, whether the buffer is given or may grow up to
 INT_MAX bytes.
 */
module PrintBuffer {
  import opened Prelude
  import opened Decimal
  import opened Json
  import opened StringCodec
  import opened StringLaws
  import opened Parser
  import opened PrintText

  // ----- strings -----

  /** How many bytes escaping adds for one byte, as the first loop of `print_string_ptr` counts. */
  function Extra(b: byte): (n: nat)
    ensures |EscapedByte(b)| == 1 + n
  {
    if b == QUOTE || b == BACKSLASH || b == 8 || b == 12 || b == 10 || b == 13 || b == 9 then 1
    else if b < 32 then 5
    else 0
  }

  /** The first loop of `print_string_ptr`: it predicts the escaped length exactly. */
  method CountEscapes(s: Str) returns (extra: nat)
    ensures |Escaped(s)| == |s| + extra
    ensures extra == 0 ==> Escaped(s) == s
  {
    hide Escaped, EscapedByte, Extra;
    extra := 0;
    var i := 0;
    assert s[0..] == s;
    while i < |s|
      invariant i <= |s|
      invariant |Escaped(s)| == i + extra + |Escaped(s[i..])|
      invariant extra == 0 ==> Escaped(s) == s[..i] + Escaped(s[i..])
    {
      EscapedStep(s, i);
      PlainByte(s[i]);
      extra := extra + Extra(s[i]);
      assert s[..i + 1] == s[..i] + [s[i]];
      assert s[..i] + ([s[i]] + Escaped(s[i + 1..])) == s[..i] + [s[i]] + Escaped(s[i + 1..]);
      i := i + 1;
    }
    EscapedNothing(s[i..]);
    assert s[..i] + [] == s;
  }

  lemma EscapedNothing(s: Str)
    ensures s == [] ==> Escaped(s) == []
  {
  }

  lemma EscapedStep(s: Str, i: nat)
    requires i < |s|
    ensures Escaped(s[i..]) == EscapedByte(s[i]) + Escaped(s[i + 1..])
  {
    hide EscapedByte;
    assert s[i..][0] == s[i] && s[i..][1..] == s[i + 1..];
  }

  lemma PlainByte(b: byte)
    ensures Extra(b) == 0 ==> EscapedByte(b) == [b]
  {
  }

  /** The second loop's body: one byte, escaped, at `at`. */
  method WriteEscapedByte(buffer: array<byte>, at: nat, b: byte) returns (next: nat)
    requires at + |EscapedByte(b)| <= buffer.Length
    modifies buffer
    ensures next == at + |EscapedByte(b)|
    ensures buffer[..next] == old(buffer[..at]) + EscapedByte(b)
  {
    if b > 31 && b != QUOTE && b != BACKSLASH {
      buffer[at] := b;
      return at + 1;
    }
    buffer[at] := BACKSLASH;
    next := at + 2;
    if b == BACKSLASH {
      buffer[at + 1] := BACKSLASH;
    } else if b == QUOTE {
      buffer[at + 1] := QUOTE;
    } else if b == 8 {
      buffer[at + 1] := 98;
    } else if b == 12 {
      buffer[at + 1] := 102;
    } else if b == 10 {
      buffer[at + 1] := 110;
    } else if b == 13 {
      buffer[at + 1] := 114;
    } else if b == 9 {
      buffer[at + 1] := 116;
    } else {
      buffer[at + 1], buffer[at + 2], buffer[at + 3] := LETTER_U, 48, 48;
      buffer[at + 4], buffer[at + 5] := HexLetter(b / 16), HexLetter(b % 16);
      next := at + 6;
    }
  }

  /** The writing part of `print_string_ptr`: the closing quote lands right behind the last byte. */
  method WriteQuoted(buffer: array<byte>, at: nat, s: Str, length: nat)
    requires length == |Escaped(s)| && at + length + 3 <= buffer.Length
    modifies buffer
    ensures buffer[..at + |Quoted(s)| + 1] == old(buffer[..at]) + Quoted(s) + [0]
  {
    hide Escaped, EscapedByte;
    ghost var before := buffer[..at];
    ghost var all := before + [QUOTE] + Escaped(s);
    buffer[at] := QUOTE;
    var p, i := at + 1, 0;
    assert s[0..] == s && buffer[..p] == before + [QUOTE];
    while i < |s|
      invariant i <= |s| && at < p <= at + 1 + length
      invariant all == buffer[..p] + Escaped(s[i..])
    {
      EscapedStart(s, i);
      ghost var written := buffer[..p];
      assert all == written + EscapedByte(s[i]) + Escaped(s[i + 1..]);
      p := WriteEscapedByte(buffer, p, s[i]);
      i := i + 1;
    }
    EscapedEnd(s[i..]);
    assert all == buffer[..p] && p == at + length + 1;
    buffer[at + length + 1] := QUOTE;
    buffer[at + length + 2] := 0;
    assert buffer[..p + 2] == all + [QUOTE, 0];
    assert all + [QUOTE, 0] == before + Quoted(s) + [0];
  }

  lemma EscapedStart(s: Str, i: nat)
    requires i < |s|
    ensures Escaped(s[i..]) == EscapedByte(s[i]) + Escaped(s[i + 1..])
  {
    assert s[i..][0] == s[i] && s[i..][1..] == s[i + 1..];
  }

  lemma EscapedEnd(s: Str)
    requires s == []
    ensures Escaped(s) == []
  {
  }

  // ----- no NUL is printed -----

  lemma {:induction false} EscapedNulFree(s: Str)
    requires NulFree(s)
    ensures NulFree(Escaped(s))
  {
    if s != [] {
      assert s[0] in s;
      EscapedNulFree(s[1..]);
    }
  }

  lemma QuotedNulFree(s: Str)
    requires NulFree(s)
    ensures NulFree(Quoted(s))
  {
    EscapedNulFree(s);
  }

  lemma {:induction false} TextNulFree(v: Json, format: bool, depth: nat)
    requires Printable(v)
    ensures NulFree(Text(v, format, depth))
    decreases v, 1
  {
    match v
    case Number(n) => IntIsNumber(n);
      assert NulFree(IntText(n));
    case String(s) => QuotedNulFree(s);
    case Array(items) =>
      hide ItemsText;
      ItemsNulFree(items, format, depth);
    case Object(members) =>
      hide MembersText;
      MembersNulFree(members, format, depth);
    case _ =>
  }

  lemma {:induction false} ItemsNulFree(items: seq<Json>, format: bool, depth: nat)
    requires forall i | 0 <= i < |items| :: Printable(items[i])
    ensures NulFree(ItemsText(items, format, depth))
    decreases items, 0
  {
    hide Text;
    if items != [] {
      TextNulFree(items[0], format, depth + 1);
      ItemsNulFree(items[1..], format, depth);
    }
  }

  lemma {:induction false} MembersNulFree(members: seq<Member>, format: bool, depth: nat)
    requires PrintableMembers(members)
    ensures NulFree(MembersText(members, format, depth))
    decreases members, 0
  {
    hide Text, Quoted, Printable;
    if members != [] {
      TextNulFree(members[0].value, format, depth + 1);
      QuotedNulFree(members[0].key);
      MembersNulFree(members[1..], format, depth);
    }
  }

  // ----- the buffer -----

  class PrintBuffer {
    var buffer: array<byte>
    var offset: nat
    var depth: nat
    const format: bool
    const noalloc: bool

    constructor (buffer: array<byte>, format: bool, noalloc: bool)
      requires buffer.Length <= INT_MAX
      ensures Valid() && offset == 0 && depth == 0
      ensures this.buffer == buffer && this.format == format && this.noalloc == noalloc
    {
      this.buffer, this.format, this.noalloc := buffer, format, noalloc;
      offset, depth := 0, 0;
    }

    ghost predicate Valid()
      reads this
    {
      buffer.Length <= INT_MAX && (offset < buffer.Length || offset == 0)
    }

    /** The most bytes the buffer can have. */
    ghost function Limit(): nat
      reads this
    {
      if noalloc then buffer.Length else INT_MAX
    }

    /** What has been written up to the offset. */
    ghost function Content(): (r: seq<byte>)
      requires offset <= buffer.Length
      reads this`buffer, this`offset, buffer
      ensures |r| == offset
    {
      buffer[..offset]
    }

    /** `ensure`: room for `needed` bytes and one more behind the offset. */
    method Ensure(needed: nat) returns (ok: bool)
      requires Valid()
      modifies this`buffer
      ensures Valid() && Limit() == old(Limit()) && (buffer == old(buffer) || fresh(buffer))
      ensures (noalloc ==> buffer == old(buffer))
      ensures ok <==> offset + needed + 1 <= Limit()
      ensures ok ==> offset + needed + 1 <= buffer.Length && buffer[..offset] == old(buffer[..offset])
    {
      if buffer.Length > 0 && offset >= buffer.Length {
        return false;
      }
      if needed > INT_MAX {
        return false;
      }
      var end := needed + offset + 1;
      if end <= buffer.Length {
        return true;
      }
      if noalloc {
        return false;
      }
      var newsize: nat;
      if end > INT_MAX / 2 {
        if end <= INT_MAX {
          newsize := INT_MAX;
        } else {
          return false;
        }
      } else {
        newsize := end * 2;
      }
      var old_buffer := buffer;
      var new_buffer := new byte[newsize](_ => 0);
      var i := 0;
      while i < offset
        invariant i <= offset && forall k | 0 <= k < i :: new_buffer[k] == old_buffer[k]
      {
        new_buffer[i] := old_buffer[i];
        i := i + 1;
      }
      buffer := new_buffer;
      return true;
    }

    /** Writes one piece where `ensure` reserved room for it, and advances the offset. */
    method Emit(needed: nat, piece: Str, advance: nat) returns (ok: bool)
      requires Valid() && advance <= |piece| <= needed
      modifies this`buffer, this`offset, buffer
      ensures Valid() && Limit() == old(Limit()) && (buffer == old(buffer) || fresh(buffer))
      ensures (noalloc ==> buffer == old(buffer))
      ensures ok <==> old(offset) + needed + 1 <= Limit()
      ensures ok ==> offset == old(offset) + advance && old(offset) + |piece| < buffer.Length
      ensures ok ==> buffer[..old(offset) + |piece|] == old(buffer[..offset]) + piece
    {
      ghost var before := buffer[..offset];
      ok := Ensure(needed);
      if !ok {
        return;
      }
      var i := 0;
      while i < |piece|
        invariant i <= |piece| && buffer[..offset + i] == before + piece[..i]
        modifies buffer
      {
        buffer[offset + i] := piece[i];
        assert buffer[..offset + i + 1] == buffer[..offset + i] + [piece[i]];
        assert piece[..i + 1] == piece[..i] + [piece[i]];
        i := i + 1;
      }
      assert piece[..|piece|] == piece;
      offset := offset + advance;
    }

    /** `update_offset`: on to the terminating NUL. */
    method UpdateOffset(ghost end: nat)
      requires offset <= end < buffer.Length && buffer[end] == 0
      requires forall i | offset <= i < end :: buffer[i] != 0
      modifies this`offset
      ensures offset == end
    {
      while buffer[offset] != 0
        invariant old(offset) <= offset <= end
        decreases end - offset
      {
        offset := offset + 1;
      }
    }

    /** What printing a text leaves: the text and its NUL behind what was there before. */
    ghost predicate Printed(before: seq<byte>, t: Str)
      reads this`buffer, this`offset, buffer
    {
      && |before| + |t| < buffer.Length && buffer[..|before| + |t| + 1] == before + t + [0]
      && |before| <= offset <= |before| + |t|
    }

    lemma PrintedMore(before: seq<byte>, a: Str, b: Str)
      requires Printed(before + a, b)
      ensures Printed(before, a + b)
    {
      assert before + a + b + [0] == before + (a + b) + [0];
    }

    /** After a print, the offset is moved behind the text. */
    method Advance(ghost before: seq<byte>, ghost t: Str)
      requires Printed(before, t) && NulFree(t)
      modifies this`offset
      ensures offset == |before| + |t| < buffer.Length && Content() == before + t
    {
      ghost var all := buffer[..|before| + |t| + 1];
      assert all[|before| + |t|] == 0;
      forall i | offset <= i < |before| + |t| ensures buffer[i] != 0 {
        assert buffer[i] == all[i] == t[i - |before|];
        assert t[i - |before|] in t;
      }
      UpdateOffset(|before| + |t|);
      assert buffer[..offset] == all[..offset];
    }

    /** Writes a text and advances behind it, with or without a NUL. */
    method Append(needed: nat, text: Str, terminate: bool) returns (ok: bool)
      requires Valid() && |text| + (if terminate then 1 else 0) <= needed
      modifies this`buffer, this`offset, buffer
      ensures Valid() && Limit() == old(Limit()) && (buffer == old(buffer) || fresh(buffer))
      ensures (noalloc ==> buffer == old(buffer))
      ensures ok <==> old(offset) + needed + 1 <= Limit()
      ensures ok ==> offset == old(offset) + |text| < buffer.Length && Content() == old(Content()) + text
    {
      var piece := if terminate then text + [0] else text;
      ok := Emit(needed, piece, |text|);
      if ok {
        assert buffer[..offset] == buffer[..old(offset) + |piece|][..offset];
      }
    }

    /** Writes a text and its NUL without advancing. */
    method Finish(needed: nat, text: Str) returns (ok: bool)
      requires Valid() && |text| + 1 == needed
      modifies this`buffer, this`offset, buffer
      ensures Valid() && Limit() == old(Limit()) && (buffer == old(buffer) || fresh(buffer))
      ensures (noalloc ==> buffer == old(buffer))
      ensures ok <==> old(offset) + |text| + 2 <= Limit()
      ensures ok ==> offset == old(offset) && Printed(old(Content()), text)
    {
      ok := Emit(needed, text + [0], 0);
      if ok {
        assert old(buffer[..offset]) + (text + [0]) == old(buffer[..offset]) + text + [0];
      }
    }

    /** `print_string_ptr`. */
    method PrintStringPtr(s: Str) returns (ok: bool)
      requires Valid()
      modifies this`buffer, this`offset, buffer
      ensures Valid() && Limit() == old(Limit()) && (buffer == old(buffer) || fresh(buffer))
      ensures (noalloc ==> buffer == old(buffer))
      ensures ok <==> old(offset) + |Quoted(s)| + 2 <= Limit()
      ensures ok ==> Printed(old(Content()), Quoted(s))
    {
      hide Escaped;
      var extra := CountEscapes(s);
      var length := |s| + extra;
      ok := Ensure(length + 3);
      if ok {
        WriteQuoted(buffer, offset, s, length);
      }
    }

    /** `print_value`: it succeeds exactly if the text and two more bytes fit. */
    method PrintValue(v: Json) returns (ok: bool)
      requires Valid() && Printable(v)
      modifies this, buffer
      ensures Valid() && Limit() == old(Limit()) && (buffer == old(buffer) || fresh(buffer))
      ensures (noalloc ==> buffer == old(buffer))
      ensures ok <==> old(offset) + |Text(v, format, old(depth))| + 2 <= Limit()
      ensures ok ==> Printed(old(Content()), Text(v, format, old(depth))) && depth == old(depth)
      ensures depth >= old(depth)
      decreases v, 1
    {
      hide ItemsText, MembersText, Quoted;
      match v
      case Null => ok := Finish(5, NULL_WORD);
      case False => ok := Finish(6, FALSE_WORD);
      case True => ok := Finish(5, TRUE_WORD);
      case Number(n) => ok := PrintNumber(n);
      case String(s) => ok := PrintStringPtr(s);
      case Array(items) => ok := PrintArray(items);
      case Object(members) => ok := PrintObject(members);
    }

    /** `print_number`, for integers. */
    method PrintNumber(n: int) returns (ok: bool)
      requires Valid()
      modifies this`buffer, this`offset, buffer
      ensures Valid() && Limit() == old(Limit()) && (buffer == old(buffer) || fresh(buffer))
      ensures (noalloc ==> buffer == old(buffer))
      ensures ok <==> old(offset) + |IntText(n)| + 2 <= Limit()
      ensures ok ==> Printed(old(Content()), IntText(n))
    {
      hide IntText;
      var text := IntText(n);
      ok := Emit(|text| + 1, text + [0], |text|);
    }

    /** `print_array`. */
    method PrintArray(items: seq<Json>) returns (ok: bool)
      requires Valid() && forall i | 0 <= i < |items| :: Printable(items[i])
      modifies this, buffer
      ensures Valid() && Limit() == old(Limit()) && (buffer == old(buffer) || fresh(buffer))
      ensures (noalloc ==> buffer == old(buffer))
      ensures var t := [OPEN_BRACKET] + ItemsText(items, format, old(depth));
        && (ok <==> old(offset) + |t| + 2 <= Limit())
        && (ok ==> Printed(old(Content()), t) && depth == old(depth))
      ensures depth >= old(depth)
      decreases items, 1
    {
      hide ItemsText, Printable, Content, Printed;
      ghost var start, text := Content(), ItemsText(items, format, depth);
      ItemsLength(items, format, depth);
      ok := Append(1, [OPEN_BRACKET], false);
      if !ok {
        return;
      }
      depth := depth + 1;
      ok := PrintItems(items);
      depth := depth - 1;
      if ok {
        PrintedMore(start, [OPEN_BRACKET], text);
      }
    }

    /** Its loop and the closing bracket. */
    method PrintItems(items: seq<Json>) returns (ok: bool)
      requires Valid() && depth > 0 && forall i | 0 <= i < |items| :: Printable(items[i])
      modifies this, buffer
      ensures Valid() && Limit() == old(Limit()) && (buffer == old(buffer) || fresh(buffer))
      ensures (noalloc ==> buffer == old(buffer))
      ensures var t := ItemsText(items, format, old(depth) - 1);
        && (ok <==> old(offset) + |t| + 2 <= Limit())
        && (ok ==> Printed(old(Content()), t) && depth == old(depth))
      ensures depth >= old(depth)
      decreases items, 0
    {
      hide ItemsText, ItemText, Printable, Content, Printed;
      ghost var outer := depth - 1;
      ghost var start, t, done := Content(), ItemsText(items, format, outer), [];
      var i := 0;
      assert items[0..] == items;
      while i < |items|
        invariant i <= |items| && Valid() && Limit() == old(Limit()) && depth == outer + 1
        invariant (buffer == old(buffer) || fresh(buffer))
        invariant (noalloc ==> buffer == old(buffer))
        invariant Content() == start + done && t == done + ItemsText(items[i..], format, outer)
        invariant offset == |start| + |done|
      {
        ItemsUnfold(items, i, format, outer);
        ok := PrintItem(items[i], i + 1 < |items|);
        if !ok {
          return;
        }
        done := done + ItemText(items[i], i + 1 < |items|, format, depth);
        i := i + 1;
      }
      ItemsEnd(items[i..], format, outer);
      ok := Finish(2, [CLOSE_BRACKET]);
      if ok {
        PrintedMore(start, done, [CLOSE_BRACKET]);
      }
    }

    /** Its loop body: one element and the separator. */
    method PrintItem(v: Json, more: bool) returns (ok: bool)
      requires Valid() && Printable(v)
      modifies this, buffer
      ensures Valid() && Limit() == old(Limit()) && (buffer == old(buffer) || fresh(buffer))
      ensures (noalloc ==> buffer == old(buffer))
      ensures var t := ItemText(v, more, format, old(depth));
        && (ok <==> old(offset) + |t| + 2 <= Limit())
        && (ok ==> offset == old(offset) + |t| < buffer.Length && depth == old(depth)
                   && Content() == old(Content()) + t)
      ensures depth >= old(depth)
      decreases v, 2
    {
      hide Text, Printable, Content, Printed;
      ghost var start, text := Content(), Text(v, format, depth);
      TextNulFree(v, format, depth);
      ok := PrintValue(v);
      if !ok {
        return;
      }
      Advance(start, text);
      if more {
        var length := if format then 2 else 1;
        ok := Append(length + 1, Separator(more, format), true);
      }
      if ok {
        assert start + text + Separator(more, format) == start + (text + Separator(more, format));
      }
    }

    /** `print_object`. */
    method PrintObject(members: seq<Member>) returns (ok: bool)
      requires Valid() && PrintableMembers(members)
      modifies this, buffer
      ensures Valid() && Limit() == old(Limit()) && (buffer == old(buffer) || fresh(buffer))
      ensures (noalloc ==> buffer == old(buffer))
      ensures var t := [OPEN_BRACE] + (Gap(format) + MembersText(members, format, old(depth)));
        && (ok <==> old(offset) + |t| + 2 <= Limit())
        && (ok ==> Printed(old(Content()), t) && depth == old(depth))
      ensures depth >= old(depth)
      decreases members, 3
    {
      hide MembersText, PrintableMembers, Content, Printed;
      ghost var start, text := Content(), MembersText(members, format, depth);
      MembersLength(members, format, depth);
      var length := if format then 2 else 1;
      ok := Append(length + 1, [OPEN_BRACE] + Gap(format), false);
      if !ok {
        return;
      }
      depth := depth + 1;
      ok := PrintMembers(members);
      depth := depth - 1;
      if ok {
        PrintedMore(start, [OPEN_BRACE] + Gap(format), text);
        assert [OPEN_BRACE] + Gap(format) + text == [OPEN_BRACE] + (Gap(format) + text);
      }
    }

    /** Its loop and the closing brace. */
    method PrintMembers(members: seq<Member>) returns (ok: bool)
      requires Valid() && depth > 0 && PrintableMembers(members)
      modifies this, buffer
      ensures Valid() && Limit() == old(Limit()) && (buffer == old(buffer) || fresh(buffer))
      ensures (noalloc ==> buffer == old(buffer))
      ensures var t := MembersText(members, format, old(depth) - 1);
        && (ok <==> old(offset) + |t| + 2 <= Limit())
        && (ok ==> Printed(old(Content()), t) && depth == old(depth))
      ensures depth >= old(depth)
      decreases members, 2
    {
      hide MembersText, Text, Printable, Tabs, Content, Printed, MemberText, PrintableMembers;
      ghost var outer := depth - 1;
      ghost var start, t, done := Content(), MembersText(members, format, outer), [];
      var i := 0;
      assert members[0..] == members;
      while i < |members|
        invariant i <= |members| && Valid() && Limit() == old(Limit()) && depth == outer + 1
        invariant (buffer == old(buffer) || fresh(buffer))
        invariant (noalloc ==> buffer == old(buffer))
        invariant Content() == start + done
        invariant t == done + MembersText(members[i..], format, outer)
        invariant offset == |start| + |done|
      {
        MembersUnfold(members, i, format, outer);
        PrintableMember(members, i);
        ok := PrintMember(members[i], i + 1 < |members|);
        if !ok {
          return;
        }
        done := done + MemberText(members[i], i + 1 < |members|, format, depth);
        i := i + 1;
      }
      MembersEnd(members[i..], format, outer);
      ok := Finish(if format then depth + 1 else 2, Indent(format, depth - 1) + [CLOSE_BRACE]);
      if ok {
        PrintedMore(start, done, Indent(format, depth - 1) + [CLOSE_BRACE]);
      }
    }

    /** Its loop body: one member with its indentation and line end. */
    method PrintMember(m: Member, more: bool) returns (ok: bool)
      requires Valid() && NulFree(m.key) && Printable(m.value)
      modifies this, buffer
      ensures Valid() && Limit() == old(Limit()) && (buffer == old(buffer) || fresh(buffer))
      ensures (noalloc ==> buffer == old(buffer))
      ensures var t := MemberText(m, more, format, old(depth));
        && (ok <==> old(offset) + |t| + 2 <= Limit())
        && (ok ==> offset == old(offset) + |t| < buffer.Length && depth == old(depth)
                   && Content() == old(Content()) + t)
      ensures depth >= old(depth)
      decreases m, 1
    {
      hide Text, Quoted, Printable, Content, Printed, KeyText;
      ghost var start, outer := Content(), depth;
      KeyLength(m.key, format, depth);
      ok := PrintKey(m.key);
      if !ok {
        return;
      }
      ghost var named := Content();
      TextNulFree(m.value, format, depth);
      ok := PrintValue(m.value);
      if !ok {
        return;
      }
      Advance(named, Text(m.value, format, outer));
      var length := (if format then 1 else 0) + (if more then 1 else 0);
      ok := Append(length + 1, LineEnd(more, format), true);
      MemberAssembled(start, m, more, format, outer);
    }

    /**
     The indented key and its colon; it succeeds if they and two more bytes fit, and never if they and one
     more byte do not.
     */
    method PrintKey(key: Str) returns (ok: bool)
      requires Valid() && NulFree(key)
      modifies this`buffer, this`offset, buffer
      ensures Valid() && Limit() == old(Limit()) && (buffer == old(buffer) || fresh(buffer))
      ensures (noalloc ==> buffer == old(buffer))
      ensures var t := KeyText(key, format, depth);
        && (old(offset) + |t| + 2 <= Limit() ==> ok)
        && (ok ==> offset == old(offset) + |t| < buffer.Length && Content() == old(Content()) + t)
    {
      hide Quoted, Tabs, Content, Printed;
      ghost var start := Content();
      if format {
        ok := Append(depth, Tabs(depth), false);
        if !ok {
          return;
        }
      }
      ghost var indented := Content();
      assert indented == start + Indent(format, depth);
      ok := PrintStringPtr(key);
      if !ok {
        return;
      }
      QuotedNulFree(key);
      Advance(indented, Quoted(key));
      var length := if format then 2 else 1;
      ok := Append(length, ColonText(format), false);
      KeyAssembled(start, Indent(format, depth), Quoted(key), ColonText(format));
    }
  }

  /** The indented key and its colon. */
  function KeyText(key: Str, format: bool, depth: nat): Str {
    Indent(format, depth) + (Quoted(key) + ColonText(format))
  }

  lemma KeyAssembled(start: seq<byte>, a: Str, b: Str, c: Str)
    ensures start + a + b + c == start + (a + (b + c))
  {
  }

  lemma KeyLength(key: Str, format: bool, depth: nat)
    ensures |KeyText(key, format, depth)| >= 1
  {
  }

  lemma PrintableMember(members: seq<Member>, i: nat)
    requires PrintableMembers(members) && i < |members|
    ensures NulFree(members[i].key) && Printable(members[i].value)
  {
  }

  /** What one member adds to the text. */
  function MemberText(m: Member, more: bool, format: bool, depth: nat): Str {
    KeyText(m.key, format, depth) + (Text(m.value, format, depth) + LineEnd(more, format))
  }

  lemma MemberAssembled(start: seq<byte>, m: Member, more: bool, format: bool, depth: nat)
    ensures start + KeyText(m.key, format, depth) + Text(m.value, format, depth) + LineEnd(more, format)
         == start + MemberText(m, more, format, depth)
  {
    hide KeyText, Text, LineEnd;
    KeyAssembled(start, KeyText(m.key, format, depth), Text(m.value, format, depth), LineEnd(more, format));
  }

  lemma MembersLength(members: seq<Member>, format: bool, depth: nat)
    ensures |MembersText(members, format, depth)| >= 1
  {
  }

  lemma MembersEnd(members: seq<Member>, format: bool, depth: nat)
    requires members == []
    ensures MembersText(members, format, depth) == Indent(format, depth) + [CLOSE_BRACE]
  {
  }

  lemma MembersUnfold(members: seq<Member>, i: nat, format: bool, depth: nat)
    requires i < |members|
    ensures MembersText(members[i..], format, depth)
         == MemberText(members[i], i + 1 < |members|, format, depth + 1) + MembersText(members[i + 1..], format, depth)
    ensures |MembersText(members[i + 1..], format, depth)| >= 1
  {
    var m, rest := members[i], MembersText(members[i + 1..], format, depth);
    assert members[i..][0] == m && members[i..][1..] == members[i + 1..];
    MembersLength(members[i + 1..], format, depth);
    assert MembersText(members[i..], format, depth)
        == Indent(format, depth + 1) + (Quoted(m.key) + (ColonText(format) + (Text(m.value, format, depth + 1)
            + (LineEnd(i + 1 < |members|, format) + rest))));
    hide MembersText, Text, Quoted, Indent, ColonText, LineEnd;
    Regroup(Indent(format, depth + 1), Quoted(m.key), ColonText(format), Text(m.value, format, depth + 1),
        LineEnd(i + 1 < |members|, format), rest);
  }

  lemma Regroup(a: Str, b: Str, c: Str, d: Str, e: Str, f: Str)
    ensures a + (b + (c + (d + (e + f)))) == a + (b + c) + (d + e) + f
  {
    assert d + (e + f) == d + e + f;
    assert b + (c + (d + e + f)) == b + c + (d + e + f);
    assert a + (b + c + (d + e + f)) == a + (b + c) + (d + e) + f;
  }

  /** What one element adds to the text. */
  function ItemText(v: Json, more: bool, format: bool, depth: nat): Str {
    Text(v, format, depth) + Separator(more, format)
  }

  lemma ItemsLength(items: seq<Json>, format: bool, depth: nat)
    ensures |ItemsText(items, format, depth)| >= 1
  {
  }

  lemma ItemsEnd(items: seq<Json>, format: bool, depth: nat)
    requires items == []
    ensures ItemsText(items, format, depth) == [CLOSE_BRACKET]
  {
  }

  lemma ItemsUnfold(items: seq<Json>, i: nat, format: bool, depth: nat)
    requires i < |items|
    ensures ItemsText(items[i..], format, depth)
         == ItemText(items[i], i + 1 < |items|, format, depth + 1) + ItemsText(items[i + 1..], format, depth)
    ensures |ItemsText(items[i + 1..], format, depth)| >= 1
  {
    ItemsLength(items[i + 1..], format, depth);
    hide Text, Separator;
    assert items[i..][0] == items[i] && items[i..][1..] == items[i + 1..];
  }

  // ----- printing a whole tree -----

  /** `cJSON_PrintPreallocated`: it succeeds exactly if the buffer has two bytes more than the text. */
  method PrintPreallocated(v: Json, buffer: array<byte>, format: bool) returns (ok: bool)
    requires Printable(v) && buffer.Length <= INT_MAX
    modifies buffer
    ensures ok <==> |Text(v, format, 0)| + 2 <= buffer.Length
    ensures ok ==> buffer[..|Text(v, format, 0)| + 1] == Text(v, format, 0) + [0]
  {
    hide Text, Printable;
    var p := new PrintBuffer(buffer, format, true);
    ok := p.PrintValue(v);
    if ok {
      assert [] + Text(v, format, 0) == Text(v, format, 0);
    }
  }

  const DEFAULT_SIZE := 256

  /**
   `cJSON_Print` and `cJSON_PrintUnformatted`: the text in a buffer of its own, unless it is too long for
   an `int`.
   */
  method Print(v: Json, format: bool) returns (printed: Option<Str>)
    requires Printable(v)
    ensures printed == if |Text(v, format, 0)| + 2 <= INT_MAX then Some(Text(v, format, 0)) else None
  {
    TextNulFree(v, format, 0);
    hide Text, Printable;
    var buffer := new byte[DEFAULT_SIZE](_ => 0);
    var p := new PrintBuffer(buffer, format, false);
    assert p.Content() == [];
    var ok := p.PrintValue(v);
    if !ok {
      return None;
    }
    p.Advance([], Text(v, format, 0));
    assert p.buffer[..p.offset] == [] + Text(v, format, 0) == Text(v, format, 0);
    return Some(p.buffer[..p.offset]);
  }
}
