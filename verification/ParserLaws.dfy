/** What is parsed does not depend on what stands before it; so a byte order mark changes nothing but the offset. */
module ParserLaws {
  import opened Prelude
  import opened Json
  import opened StringCodec
  import opened Parser

  /** The same item, found `n` bytes further on. */
  function Later<T>(r: Option<Parsed<T>>, n: nat): Option<Parsed<T>> {
    if r.None? then None else Some(Parsed(r.value.value, r.value.next + n))
  }

  lemma {:induction false} ScanLater(a: Str, c: Str, i: nat)
    requires i <= |c|
    ensures Scan(a + c, |a| + i) == (if Scan(c, i).None? then None else Some(|a| + Scan(c, i).value))
    decreases |c| - i
  {
    if i < |c| {
      assert (a + c)[|a| + i] == c[i];
      if c[i] == BACKSLASH {
        if i + 1 < |c| {
          ScanLater(a, c, i + 2);
        }
      } else if c[i] != QUOTE {
        ScanLater(a, c, i + 1);
      }
    }
  }

  lemma HexLater(a: Str, c: Str, i: nat)
    requires i + 4 <= |c|
    ensures Hex4(a + c, |a| + i) == Hex4(c, i)
  {
    var d := a + c;
    assert d[|a| + i] == c[i] && d[|a| + i + 1] == c[i + 1] && d[|a| + i + 2] == c[i + 2] && d[|a| + i + 3] == c[i + 3];
  }

  lemma Utf16Later(a: Str, c: Str, p: nat, end: nat)
    requires p <= end < |c|
    ensures Utf16At(a + c, |a| + p, |a| + end) == Utf16At(c, p, end)
  {
    hide Hex4, Utf8.Encoded;
    if end - p >= 6 {
      HexLater(a, c, p + 2);
      if end - (p + 6) >= 6 {
        HexLater(a, c, p + 8);
        assert (a + c)[|a| + p + 6] == c[p + 6] && (a + c)[|a| + p + 7] == c[p + 7];
      }
    }
  }

  lemma TokenLater(a: Str, c: Str, p: nat, end: nat)
    requires p < end < |c|
    ensures TokenAt(a + c, |a| + p, |a| + end) == TokenAt(c, p, end)
  {
    hide Utf16At;
    assert (a + c)[|a| + p] == c[p] && (a + c)[|a| + p + 1] == c[p + 1];
    Utf16Later(a, c, p, end);
  }

  lemma {:induction false} DecodeLater(a: Str, c: Str, p: nat, end: nat)
    requires end < |c|
    ensures Decode(a + c, |a| + p, |a| + end) == Decode(c, p, end)
    decreases end - p
  {
    hide TokenAt;
    if p < end {
      TokenLater(a, c, p, end);
      var t := TokenAt(c, p, end);
      if t.Some? {
        DecodeLater(a, c, p + t.value.length, end);
      }
    }
  }

  lemma StringLater(a: Str, c: Str, o: nat)
    ensures StringAt(a + c, |a| + o) == Later(StringAt(c, o), |a|)
  {
    hide Scan, Decode, CString;
    if o < |c| {
      assert (a + c)[|a| + o] == c[o];
      if c[o] == QUOTE {
        ScanLater(a, c, o + 1);
        var end := Scan(c, o + 1);
        if end.Some? {
          DecodeLater(a, c, o + 1, end.value);
        }
      }
    }
  }

  lemma {:induction false} SkipBlankLater(a: Str, c: Str, o: nat)
    requires o <= |c|
    ensures SkipBlank(a + c, |a| + o) == |a| + SkipBlank(c, o)
    decreases |c| - o
  {
    if o < |c| {
      assert (a + c)[|a| + o] == c[o];
      if c[o] <= 32 {
        SkipBlankLater(a, c, o + 1);
      }
    }
  }

  lemma SkipLater(a: Str, c: Str, o: nat)
    requires o <= |c|
    ensures Skip(a + c, |a| + o) == |a| + Skip(c, o)
  {
    SkipBlankLater(a, c, o);
    hide SkipBlank;
  }

  lemma {:induction false} NumberEndLater(a: Str, c: Str, o: nat, left: nat)
    requires o <= |c|
    ensures NumberEnd(a + c, |a| + o, left) == |a| + NumberEnd(c, o, left)
    decreases left
  {
    if o < |c| {
      assert (a + c)[|a| + o] == c[o];
      if left > 0 {
        NumberEndLater(a, c, o + 1, left - 1);
      }
    }
  }

  lemma NumberLater(a: Str, c: Str, o: nat)
    requires o <= |c|
    ensures NumberAt(a + c, |a| + o) == Later(NumberAt(c, o), |a|)
  {
    hide StrtodLength, NumberItem, NumberEnd;
    NumberEndLater(a, c, o, 63);
    var end := NumberEnd(c, o, 63);
    assert (a + c)[|a| + o..|a| + end] == c[o..end];
  }

  lemma ByteLater(a: Str, c: Str, o: nat, b: byte)
    ensures ByteIs(a + c, |a| + o, b) == ByteIs(c, o, b)
  {
    if o < |c| {
      assert (a + c)[|a| + o] == c[o];
    }
  }

  lemma WordLater(a: Str, c: Str, o: nat, word: Str)
    ensures StartsWith(a + c, |a| + o, word) == StartsWith(c, o, word)
  {
    if o + |word| <= |c| {
      assert (a + c)[|a| + o..|a| + o + |word|] == c[o..o + |word|];
    }
  }

  lemma {:induction false} ValueLater(a: Str, c: Str, o: nat, depth: nat)
    requires o <= |c|
    ensures ValueAt(a + c, |a| + o, depth) == Later(ValueAt(c, o, depth), |a|)
    decreases |c| - o, 0
  {
    hide StartsWith, StringAt, NumberAt, ArrayAt, ObjectAt, ByteIs;
    WordLater(a, c, o, NULL_WORD);
    WordLater(a, c, o, FALSE_WORD);
    WordLater(a, c, o, TRUE_WORD);
    ByteLater(a, c, o, QUOTE);
    ByteLater(a, c, o, OPEN_BRACKET);
    ByteLater(a, c, o, OPEN_BRACE);
    StringLater(a, c, o);
    NumberLater(a, c, o);
    assert o < |c| ==> (a + c)[|a| + o] == c[o];
    if ByteIs(c, o, OPEN_BRACKET) {
      ArrayLater(a, c, o, depth);
    } else if ByteIs(c, o, OPEN_BRACE) {
      ObjectLater(a, c, o, depth);
    }
  }

  lemma {:induction false} ArrayLater(a: Str, c: Str, o: nat, depth: nat)
    requires ByteIs(c, o, OPEN_BRACKET)
    ensures ByteIs(a + c, |a| + o, OPEN_BRACKET)
    ensures ArrayAt(a + c, |a| + o, depth) == Later(ArrayAt(c, o, depth), |a|)
    decreases |c| - o - 1, 2
  {
    ByteLater(a, c, o, OPEN_BRACKET);
    hide ItemsAt, Skip;
    SkipLater(a, c, o + 1);
    var p := Skip(c, o + 1);
    ByteLater(a, c, p, CLOSE_BRACKET);
    hide ByteIs;
    if p < |c| {
      ItemsLater(a, c, p, depth + 1);
    }
  }

  lemma {:induction false} ItemsLater(a: Str, c: Str, p: nat, depth: nat)
    requires p <= |c|
    ensures ItemsAt(a + c, |a| + p, depth) == Later(ItemsAt(c, p, depth), |a|)
    decreases |c| - p, 1
  {
    hide ValueAt, Skip;
    SkipLater(a, c, p);
    ValueLater(a, c, Skip(c, p), depth);
    var first := ValueAt(c, Skip(c, p), depth);
    if first.Some? {
      SkipLater(a, c, first.value.next);
      var q := Skip(c, first.value.next);
      ByteLater(a, c, q, COMMA);
      ByteLater(a, c, q, CLOSE_BRACKET);
      if ByteIs(c, q, COMMA) {
        ItemsLater(a, c, q + 1, depth);
      }
    }
  }

  lemma {:induction false} ObjectLater(a: Str, c: Str, o: nat, depth: nat)
    requires ByteIs(c, o, OPEN_BRACE)
    ensures ByteIs(a + c, |a| + o, OPEN_BRACE)
    ensures ObjectAt(a + c, |a| + o, depth) == Later(ObjectAt(c, o, depth), |a|)
    decreases |c| - o - 1, 2
  {
    ByteLater(a, c, o, OPEN_BRACE);
    hide MembersAt, Skip;
    SkipLater(a, c, o + 1);
    var p := Skip(c, o + 1);
    ByteLater(a, c, p, CLOSE_BRACE);
    hide ByteIs;
    if p < |c| {
      MembersLater(a, c, p, depth + 1);
    }
  }

  lemma NameLater(a: Str, c: Str, p: nat)
    requires p <= |c|
    ensures NameAt(a + c, |a| + p) == Later(NameAt(c, p), |a|)
  {
    hide Skip, StringAt;
    if p < |c| {
      SkipLater(a, c, p);
      StringLater(a, c, Skip(c, p));
      var name := StringAt(c, Skip(c, p));
      if name.Some? && name.value.next <= |c| {
        SkipLater(a, c, name.value.next);
        ByteLater(a, c, Skip(c, name.value.next), COLON);
      }
    }
  }

  lemma {:induction false} MembersLater(a: Str, c: Str, p: nat, depth: nat)
    requires p <= |c|
    ensures MembersAt(a + c, |a| + p, depth) == Later(MembersAt(c, p, depth), |a|)
    decreases |c| - p, 1
  {
    hide ValueAt, Skip, NameAt;
    NameLater(a, c, p);
    var name := NameAt(c, p);
    if name.Some? {
      SkipLater(a, c, name.value.next);
      ValueLater(a, c, Skip(c, name.value.next), depth);
      var value := ValueAt(c, Skip(c, name.value.next), depth);
      if value.Some? {
        SkipLater(a, c, value.value.next);
        var q := Skip(c, value.value.next);
        ByteLater(a, c, q, COMMA);
        ByteLater(a, c, q, CLOSE_BRACE);
        if ByteIs(c, q, COMMA) {
          MembersLater(a, c, q + 1, depth);
        }
      }
    }
  }

  const MARK: Str := [0xEF, 0xBB, 0xBF]

  lemma MarkFound(c: Str)
    requires |c| > 1
    ensures BomLength(MARK + c) == |MARK| == 3
  {
  }

  lemma ParseLater(c: Str, requireEnd: bool)
    requires |c| > 1 && BomLength(c) == 0
    ensures Parse(MARK + c, requireEnd) == Later(Parse(c, requireEnd), |MARK|)
  {
    hide *;
    MarkFound(c);
    SkipLater(MARK, c, 0);
    ValueLater(MARK, c, Skip(c, 0), 0);
    var v := ValueAt(c, Skip(c, 0), 0);
    if v.Some? {
      SkipLater(MARK, c, v.value.next);
      ByteLater(MARK, c, Skip(c, v.value.next), 0);
    }
    Assembled(c, MARK + c, |MARK|, requireEnd);
  }

  lemma Assembled(c: Str, d: Str, n: nat, requireEnd: bool)
    requires c != [] && |d| == n + |c| && BomLength(c) == 0 && BomLength(d) == n && Skip(d, n + 0) == n + Skip(c, 0)
    requires ValueAt(d, n + Skip(c, 0), 0) == Later(ValueAt(c, Skip(c, 0), 0), n)
    requires var v := ValueAt(c, Skip(c, 0), 0);
      v.Some? ==>
        var q := Skip(c, v.value.next);
        Skip(d, n + v.value.next) == n + q && ByteIs(d, n + q, 0) == ByteIs(c, q, 0)
    ensures Parse(d, requireEnd) == Later(Parse(c, requireEnd), n)
  {
    hide Skip, ValueAt, BomLength, ByteIs;
  }

  /**
   A text behind a byte order mark is parsed like the text alone, three bytes later. It must not be empty, and
   must not begin with another mark, of which only one is skipped.
   */
  lemma MarkSkipped(text: Str, requireEnd: bool)
    requires text != [] && BomLength(text + [0]) == 0
    ensures ParseText(MARK + text, requireEnd) == Later(ParseText(text, requireEnd), 3)
  {
    hide Parse, BomLength;
    MarkFound(text + [0]);
    assert MARK + text + [0] == MARK + (text + [0]);
    ParseLater(text + [0], requireEnd);
  }
}
