/** What the string codec promises: valid UTF-8 stays valid, and escaping is undone by parsing. */
module StringLaws {
  import opened Prelude
  import Utf8
  import opened StringCodec

  // ----- UTF-8 -----

  /** Every `\u` of the literal is followed by four hexadecimal digits. */
  predicate HexEscapes(c: Str, p: nat, end: nat)
    requires end < |c|
    decreases end - p
  {
    p < end ==>
      if c[p] != BACKSLASH then HexEscapes(c, p + 1, end)
      else if c[p + 1] == LETTER_U then p + 6 <= end && FourHex(c, p + 2) && HexEscapes(c, p + 6, end)
      else HexEscapes(c, p + 2, end)
  }

  lemma AsciiTail(c: Str, p: nat, end: nat)
    requires p < end <= |c| && c[p] < 0x80 && Utf8.Valid(c[p..end])
    ensures Utf8.Valid(c[p + 1..end])
  {
    assert c[p..end][1..] == c[p + 1..end];
  }

  lemma HexIsAscii(c: Str, i: nat)
    requires FourHex(c, i)
    ensures c[i] < 0x80 && c[i + 1] < 0x80 && c[i + 2] < 0x80 && c[i + 3] < 0x80
  {
  }

  /** A Unicode escape is six ASCII bytes. */
  lemma EscapeTail(c: Str, p: nat, end: nat)
    requires p + 6 <= end <= |c| && c[p] == BACKSLASH && c[p + 1] == LETTER_U
    requires FourHex(c, p + 2) && Utf8.Valid(c[p..end])
    ensures Utf8.Valid(c[p + 6..end])
  {
    HexIsAscii(c, p + 2);
    hide Utf8.Valid, FourHex;
    AsciiTail(c, p, end);
    AsciiTail(c, p + 1, end);
    AsciiTail(c, p + 2, end);
    AsciiTail(c, p + 3, end);
    AsciiTail(c, p + 4, end);
    AsciiTail(c, p + 5, end);
  }

  lemma OneByte(b: byte, rest: Str)
    requires b < 0x80 && Utf8.Valid(rest)
    ensures Utf8.Valid([b] + rest)
  {
    assert ([b] + rest)[1..] == rest;
  }

  /** Bytes that are not backslashes are copied. */
  lemma {:induction false} PlainRun(c: Str, p: nat, end: nat, n: nat)
    requires p + n <= end < |c| && forall i | p <= i < p + n :: c[i] != BACKSLASH
    ensures Decode(c, p, end) == Prefixed(c[p..p + n], Decode(c, p + n, end))
    ensures HexEscapes(c, p, end) ==> HexEscapes(c, p + n, end)
    decreases n
  {
    hide Decode;
    if n == 0 {
      EmptyPrefix(Decode(c, p, end));
    } else {
      DecodeStep(c, p, end);
      PlainRun(c, p + 1, end, n - 1);
      PrefixedTwice([c[p]], c[p + 1..p + n], Decode(c, p + n, end));
      assert [c[p]] + c[p + 1..p + n] == c[p..p + n];
    }
  }

  /** The code point a Unicode escape stands for by section 7 of RFC 8259, or -1. */
  function EscapeCode(c: Str, p: nat, end: nat): int
    requires p + 6 <= end <= |c|
  {
    var first := Hex4(c, p + 2);
    if !Utf8.Surrogate(first) then first
    else if HighSurrogate(first) && p + 12 <= end && c[p + 6] == BACKSLASH && c[p + 7] == LETTER_U
        && LowSurrogate(Hex4(c, p + 8)) then
      0x10000 + (first - 0xD800) * 0x400 + (Hex4(c, p + 8) - 0xDC00)
    else -1
  }

  /** A Unicode escape is accepted exactly if it is no lone surrogate, and becomes the character of its code point. */
  lemma EscapeIsCharacter(c: Str, p: nat, end: nat, rest: Str)
    requires p + 6 <= end <= |c|
    ensures var t, code := Utf16At(c, p, end), EscapeCode(c, p, end);
      && (t.Some? <==> code >= 0)
      && (t.Some? ==>
            && Utf8.CharLength(t.value.bytes + rest) == |t.value.bytes|
            && Utf8.CodePoint(t.value.bytes + rest) == code
            && (t.value.bytes + rest)[|t.value.bytes|..] == rest)
  {
    hide Hex4, Utf8.Encoded, Utf8.CharLength, Utf8.CodePoint;
    var code := EscapeCode(c, p, end);
    if code >= 0 {
      Utf8.EncodedIsValid(code, rest);
    }
  }

  /** Decoding a valid UTF-8 literal yields valid UTF-8. */
  lemma {:induction false} DecodeKeepsUtf8(c: Str, p: nat, end: nat)
    requires p <= end < |c| && Utf8.Valid(c[p..end]) && HexEscapes(c, p, end)
    requires Decode(c, p, end).Some?
    ensures Utf8.Valid(Decode(c, p, end).value)
    decreases end - p
  {
    if p == end {
      DecodeEnd(c, p, end);
    } else if c[p] == BACKSLASH {
      EscapeKeepsUtf8(c, p, end);
    } else {
      hide *;
      var n := Utf8.CharLength(c[p..end]);
      PlainCharacter(c, p, end, n);
      DecodeKeepsUtf8(c, p + n, end);
      CharacterAgain(c[p..end], Decode(c, p + n, end).value);
    }
  }

  /** A character that is no backslash is copied, and what follows it is still valid. */
  lemma PlainCharacter(c: Str, p: nat, end: nat, n: nat)
    requires p < end < |c| && Utf8.Valid(c[p..end]) && HexEscapes(c, p, end)
    requires c[p] != BACKSLASH && n == Utf8.CharLength(c[p..end]) && Decode(c, p, end).Some?
    ensures 0 < n <= end - p && Utf8.Valid(c[p + n..end]) && HexEscapes(c, p + n, end)
    ensures Decode(c, p + n, end).Some?
    ensures Decode(c, p, end).value == c[p..end][..n] + Decode(c, p + n, end).value
  {
    hide Decode, HexEscapes, Utf8.CharLength, Utf8.Valid;
    CharacterBytes(c[p..end]);
    SubSlices(c, p, end, n);
    PlainRun(c, p, end, n);
  }

  lemma SubSlices(c: Str, p: nat, end: nat, n: nat)
    requires p + n <= end <= |c|
    ensures c[p..end][..n] == c[p..p + n] && c[p..end][n..] == c[p + n..end]
    ensures forall i | p <= i < p + n :: c[i] == c[p..end][i - p]
  {
  }

  lemma CharacterBytes(s: Str)
    requires s != [] && Utf8.Valid(s) && s[0] != BACKSLASH
    ensures 0 < Utf8.CharLength(s) && Utf8.Valid(s[Utf8.CharLength(s)..])
    ensures forall i | 0 <= i < Utf8.CharLength(s) :: s[i] != BACKSLASH
  {
  }

  lemma CharacterAgain(s: Str, rest: Str)
    requires Utf8.CharLength(s) > 0 && Utf8.Valid(rest)
    ensures Utf8.Valid(s[..Utf8.CharLength(s)] + rest)
  {
    var n := Utf8.CharLength(s);
    var t := s[..n] + rest;
    assert forall i | 0 <= i < n :: t[i] == s[i];
    assert Utf8.CharLength(t) == n;
    assert t[n..] == rest;
  }

  lemma {:induction false} EscapeKeepsUtf8(c: Str, p: nat, end: nat)
    requires p < end < |c| && Utf8.Valid(c[p..end]) && HexEscapes(c, p, end)
    requires Decode(c, p, end).Some? && c[p] == BACKSLASH
    ensures Utf8.Valid(Decode(c, p, end).value)
    decreases end - p, 0
  {
    hide Decode, Hex4, Utf16At, FourHex, Utf8.Valid;
    DecodeStep(c, p, end);
    var t := TokenAt(c, p, end).value;
    if c[p + 1] == LETTER_U {
      EscapeTail(c, p, end);
      PairTail(c, p, end);
      hide HexEscapes;
      DecodeKeepsUtf8(c, p + t.length, end);
      EscapeValid(c, p, end, Decode(c, p + t.length, end).value);
    } else if p + 2 <= end {
      AsciiTail(c, p, end);
      AsciiTail(c, p + 1, end);
      hide HexEscapes;
      DecodeKeepsUtf8(c, p + 2, end);
      OneByte(t.bytes[0], Decode(c, p + 2, end).value);
    } else {
      DecodeEnd(c, p + 2, end);
      NothingValid();
      OneByte(t.bytes[0], []);
    }
  }

  lemma NothingValid()
    ensures Utf8.Valid([])
  {
  }

  lemma EscapeValid(c: Str, p: nat, end: nat, rest: Str)
    requires p + 6 <= end <= |c| && Utf16At(c, p, end).Some? && Utf8.Valid(rest)
    ensures Utf8.Valid(Utf16At(c, p, end).value.bytes + rest)
  {
    hide Utf16At, EscapeCode, Utf8.CharLength, Utf8.CodePoint;
    EscapeIsCharacter(c, p, end, rest);
  }

  /** What follows an accepted Unicode escape is again a valid literal. */
  lemma PairTail(c: Str, p: nat, end: nat)
    requires p + 6 <= end < |c| && Utf8.Valid(c[p + 6..end]) && HexEscapes(c, p + 6, end)
    requires Utf16At(c, p, end).Some?
    ensures var n := p + Utf16At(c, p, end).value.length; Utf8.Valid(c[n..end]) && HexEscapes(c, n, end)
  {
    hide Hex4, FourHex, Utf8.Valid;
    if Utf16At(c, p, end).value.length == 12 {
      EscapeTail(c, p + 6, end);
    }
  }

  lemma {:induction false} PrefixKeepsUtf8(s: Str)
    requires Utf8.Valid(s)
    ensures Utf8.Valid(CString(s))
    decreases |s|
  {
    if s != [] && s[0] != 0 {
      var n := Utf8.CharLength(s);
      NonzeroRun(s, n);
      PrefixKeepsUtf8(s[n..]);
      CharacterAgain(s, CString(s[n..]));
    }
  }

  lemma {:induction false} NonzeroRun(s: Str, n: nat)
    requires n <= |s| && forall i | 0 <= i < n :: s[i] != 0
    ensures CString(s) == s[..n] + CString(s[n..])
  {
    if n > 0 {
      NonzeroRun(s[1..], n - 1);
      assert s[1..][n - 1..] == s[n..];
      assert s[..n] == [s[0]] + s[1..][..n - 1];
    } else {
      assert s[..0] + CString(s) == CString(s);
    }
  }

  /** Any literal of valid UTF-8 with well-formed Unicode escapes that is accepted becomes valid UTF-8. */
  lemma StringKeepsUtf8(c: Str, o: nat)
    requires StringAt(c, o).Some?
    requires var end := Scan(c, o + 1).value; Utf8.Valid(c[o + 1..end]) && HexEscapes(c, o + 1, end)
    ensures Utf8.Valid(StringAt(c, o).value.value)
  {
    var end := Scan(c, o + 1).value;
    DecodeKeepsUtf8(c, o + 1, end);
    PrefixKeepsUtf8(Decode(c, o + 1, end).value);
  }

  // ----- escaping -----

  function HexLetter(d: nat): byte
    requires d < 16
  {
    if d < 10 then 48 + d else 97 + d - 10
  }

  /** What print_string_ptr writes for one byte. */
  function EscapedByte(b: byte): (s: Str)
    ensures 1 <= |s| <= 6
  {
    if b > 31 && b != QUOTE && b != BACKSLASH then [b]
    else if b == BACKSLASH || b == QUOTE then [BACKSLASH, b]
    else if b == 8 then [BACKSLASH, 98]
    else if b == 12 then [BACKSLASH, 102]
    else if b == 10 then [BACKSLASH, 110]
    else if b == 13 then [BACKSLASH, 114]
    else if b == 9 then [BACKSLASH, 116]
    else [BACKSLASH, LETTER_U, 48, 48, HexLetter(b / 16), HexLetter(b % 16)]
  }

  function Escaped(s: Str): Str {
    if s == [] then [] else EscapedByte(s[0]) + Escaped(s[1..])
  }

  /** A string as it is printed. */
  function Quoted(s: Str): Str {
    [QUOTE] + Escaped(s) + [QUOTE]
  }

  /** `t` stands in `c` at `o`. */
  predicate Occurs(c: Str, o: nat, t: Str) {
    o + |t| <= |c| && c[o..o + |t|] == t
  }

  lemma OccursSplit(c: Str, o: nat, a: Str, b: Str)
    ensures Occurs(c, o, a + b) <==> Occurs(c, o, a) && Occurs(c, o + |a|, b)
  {
    if Occurs(c, o, a + b) {
      var s := c[o..o + |a + b|];
      assert s[..|a|] == c[o..o + |a|] && s[|a|..] == c[o + |a|..o + |a| + |b|];
    }
    if Occurs(c, o, a) && Occurs(c, o + |a|, b) {
      assert c[o..o + |a + b|] == c[o..o + |a|] + c[o + |a|..o + |a| + |b|];
    }
  }

  lemma OccursAt(c: Str, o: nat, t: Str)
    requires Occurs(c, o, t)
    ensures forall i | 0 <= i < |t| :: c[o + i] == t[i]
  {
    forall i | 0 <= i < |t| ensures c[o + i] == t[i] {
      assert c[o..o + |t|][i] == t[i];
    }
  }

  /** Both passes read an escaped byte as that byte. */
  lemma ByteReadBack(c: Str, p: nat, b: byte, end: nat)
    requires b != 0 && Occurs(c, p, EscapedByte(b)) && p + |EscapedByte(b)| <= end < |c|
    ensures Scan(c, p) == Scan(c, p + |EscapedByte(b)|)
    ensures TokenAt(c, p, end) == Some(Token([b], |EscapedByte(b)|))
  {
    var e := EscapedByte(b);
    OccursAt(c, p, e);
    assert c[p + 0] == e[0];
    if |e| == 2 {
      assert c[p + 1] == e[1];
    } else if |e| == 6 {
      assert c[p + 1] == e[1] && c[p + 2] == e[2] && c[p + 3] == e[3] && c[p + 4] == e[4] && c[p + 5] == e[5];
      ControlReadBack(c, p, b, end);
    }
  }

  lemma ControlReadBack(c: Str, p: nat, b: byte, end: nat)
    requires 0 < b < 32 && p + 6 <= end < |c| && c[p] == BACKSLASH && c[p + 1] == LETTER_U
    requires c[p + 2] == 48 && c[p + 3] == 48 && c[p + 4] == HexLetter(b / 16)
    requires c[p + 5] == HexLetter(b % 16)
    ensures Scan(c, p) == Scan(c, p + 6)
    ensures TokenAt(c, p, end) == Some(Token([b], 6))
  {
    assert HexDigit(c[p + 4]) == b / 16 && HexDigit(c[p + 5]) == b % 16;
    assert Hex4(c, p + 2) == b;
    assert Scan(c, p) == Scan(c, p + 2);
    assert Scan(c, p + 2) == Scan(c, p + 3) == Scan(c, p + 4) == Scan(c, p + 5) == Scan(c, p + 6);
  }

  lemma {:induction false} EscapedReadBack(c: Str, p: nat, s: Str)
    requires NulFree(s) && Occurs(c, p, Escaped(s) + [QUOTE])
    ensures Scan(c, p) == Some(p + |Escaped(s)|)
    ensures Decode(c, p, p + |Escaped(s)|) == Some(s)
    decreases |s|
  {
    hide Occurs, EscapedByte, Scan, Decode;
    if s == [] {
      assert Escaped(s) + [QUOTE] == [QUOTE];
      LiteralEnds(c, p);
      DecodeEnd(c, p, p);
    } else {
      var e, rest := EscapedByte(s[0]), Escaped(s[1..]);
      assert s[0] in s && Escaped(s) + [QUOTE] == e + (rest + [QUOTE]);
      OccursSplit(c, p, e, rest + [QUOTE]);
      EscapedReadBack(c, p + |e|, s[1..]);
      EscapedStep(c, p, s[0], p + |e| + |rest|, s[1..]);
      assert [s[0]] + s[1..] == s;
    }
  }

  lemma EscapedStep(c: Str, p: nat, b: byte, end: nat, rest: Str)
    requires b != 0 && Occurs(c, p, EscapedByte(b)) && p + |EscapedByte(b)| <= end < |c|
    requires Scan(c, p + |EscapedByte(b)|) == Some(end)
    requires Decode(c, p + |EscapedByte(b)|, end) == Some(rest)
    ensures Scan(c, p) == Some(end) && Decode(c, p, end) == Some([b] + rest)
  {
    hide Occurs, EscapedByte, Scan, Decode, TokenAt;
    ByteReadBack(c, p, b, end);
    DecodeStep(c, p, end);
  }

  /** The first pass takes four hexadecimal digits for four bytes. */
  lemma HexScan(c: Str, i: nat)
    requires i + 4 <= |c| && FourHex(c, i)
    ensures Scan(c, i) == Scan(c, i + 4)
  {
    assert Scan(c, i) == Scan(c, i + 1) == Scan(c, i + 2) == Scan(c, i + 3);
  }

  lemma HexCopied(c: Str, d: Str, p: nat, shift: int)
    requires p + 4 <= |c| && 0 <= p + shift && p + shift + 4 <= |d|
    requires forall j | p <= j < p + 4 :: d[j + shift] == c[j]
    ensures Hex4(d, p + shift) == Hex4(c, p) && FourHex(d, p + shift) == FourHex(c, p)
  {
    assert d[p + shift] == c[p] && d[p + 1 + shift] == c[p + 1] && d[p + 2 + shift] == c[p + 2]
      && d[p + 3 + shift] == c[p + 3];
  }

  lemma LiteralEnds(c: Str, end: nat)
    requires Occurs(c, end, [QUOTE])
    ensures end < |c| && c[end] == QUOTE && Scan(c, end) == Some(end)
  {
    assert c[end..end + 1][0] == c[end];
  }

  lemma {:induction false} NulFreeCString(s: Str)
    requires NulFree(s)
    ensures CString(s) == s
  {
    if s != [] {
      assert s[0] in s;
      NulFreeCString(s[1..]);
    }
  }

  /** Parsing a printed string gives it back and ends right behind it. */
  lemma QuotedReadBack(c: Str, o: nat, s: Str)
    requires NulFree(s) && Occurs(c, o, Quoted(s))
    ensures StringAt(c, o) == Some(Parsed(s, o + |Quoted(s)|))
  {
    hide Occurs, Escaped, Scan, Decode;
    assert Quoted(s) == [QUOTE] + (Escaped(s) + [QUOTE]);
    OccursSplit(c, o, [QUOTE], Escaped(s) + [QUOTE]);
    LiteralEnds(c, o);
    EscapedReadBack(c, o + 1, s);
    NulFreeCString(s);
  }

  /**
   The two passes of `parse_string` can disagree: in the literal "\uabc\\" the malformed escape swallows
   the first of two backslashes, the second escapes the closing quote, and the read pointer passes it.
   */
  lemma PassesDisagree()
    ensures var c := [34, 92, 117, 97, 98, 99, 92, 92, 34];
      && Scan(c, 1) == Some(8) && Decode(c, 1, 8) == Some([0, 34]) && StringAt(c, 0) == Some(Parsed([], 9))
  {
    var c: Str := [34, 92, 117, 97, 98, 99, 92, 92, 34];
    assert c[1] == BACKSLASH && c[2] == LETTER_U && c[6] == BACKSLASH && c[7] == BACKSLASH && c[8] == QUOTE;
    assert Scan(c, 8) == Some(8);
    assert Scan(c, 6) == Some(8);
    assert Scan(c, 5) == Some(8);
    assert Scan(c, 4) == Some(8);
    assert Scan(c, 3) == Some(8);
    assert Scan(c, 1) == Some(8);
    assert Hex4(c, 3) == 0;
    assert TokenAt(c, 1, 8) == Some(Token([0], 6));
    assert TokenAt(c, 7, 8) == Some(Token([34], 2));
    DecodeEnd(c, 9, 8);
    DecodeStep(c, 7, 8);
    DecodeStep(c, 1, 8);
    assert [34] + [] == [34];
    assert [0] + [34] == [0, 34];
  }
}
