/** What JSON text promises as a whole. */
module JsonText {
  import opened Prelude
  import opened Json
  import opened StringCodec
  import opened StringLaws
  import opened Parser
  import opened PrintText
  import opened Reparse
  import opened Minify
  import opened MinifyMeaning

  /**
   The tree round trip: parsing the printed text of any tree nested at most 1000 deep, formatted or
   not, gives the same tree, members in order, and ends right behind the text.
   */
  lemma TreeRoundTrip(v: Json, format: bool, requireEnd: bool)
    requires Printable(v) && Nesting(v) <= NESTING_LIMIT
    ensures ParseText(Text(v, format, 0), requireEnd) == Some(Parsed(v, |Text(v, format, 0)|))
  {
    var t := Text(v, format, 0);
    var c := t + [0];
    assert c[0..|t|] == t;
    TextStarts(v, format, 0);
    assert c[0] == t[0];
    NoMark(v, format);
    SkipsNothing(c, 0);
    ValueReadBack(c, 0, v, format, 0, 0);
    hide Text, ValueAt;
    assert c[|t|] == 0;
    assert SkipBlank(c, |t| + 1) == |t| + 1;
    assert Skip(c, |t|) == |t|;
  }

  lemma NoMark(v: Json, format: bool)
    requires Printable(v)
    ensures Text(v, format, 0) != [] && Text(v, format, 0)[0] != 0xEF
  {
    if v.Number? {
      IntShort(v.n);
      IntIsNumber(v.n);
    }
  }

  /**
   Whatever buffer is accepted, whatever its white space, escapes and number formats: if its numbers
   are integers, printing the tree and parsing the text again gives the same tree.
   */
  lemma ReparseStable(c: Str, requireEnd: bool, format: bool)
    requires Parse(c, requireEnd).Some? && OnlyIntegers(Parse(c, requireEnd).value.value)
    ensures var v := Parse(c, requireEnd).value.value; var text := Text(v, format, 0);
      ParseText(text, true) == Some(Parsed(v, |text|))
  {
    hide ValueAt, Skip, Printable, OnlyIntegers, Nesting, Text, ParseText;
    ValueAccepted(c, Skip(c, BomLength(c)), 0);
    TreeRoundTrip(Parse(c, requireEnd).value.value, format, true);
  }

  /** Parsing the text before and after minifying. */
  lemma MinifiedParse(s: Str)
    requires NulFree(s) && ParseText(s, true).Some?
    requires Kept(s) || BlanksOnly(s, 0, Outside)
    ensures var v, r := ParseText(s, true).value.value, ParseText(Minified(s), true);
      if Kept(s) then r == Some(Parsed(v, |Minified(s)|)) else r.Some? ==> r.value.value != v
  {
    hide MinifiedFrom, Related, Skip, ValueAt, BomLength, Kept, BlanksOnly;
    var m := Minified(s);
    var c, d := Terminated(s), Terminated(m);
    var n := BomLength(c);
    MarkRelated(s);
    RelatedBounds(s, m, n, n);
    var p, r := Skip(c, n), Skip(d, n);
    ValueStarts(c, p, 0);
    SkipRelated(s, m, n, n);
    RelatedBounds(s, m, p, r);
    var v := ValueAt(c, p, 0).value;
    ValueRelated(s, m, p, r, 0);
    if Same(s, m, v, ValueAt(d, r, 0)) {
      var w := ValueAt(d, r, 0).value;
      SkipRelated(s, m, v.next, w.next);
      RelatedBounds(s, m, Skip(c, v.next), Skip(d, w.next));
      EndReached(s, Skip(c, v.next));
      RelatedEnd(s, m, Skip(d, w.next));
    }
  }

  /**
   Minifying preserves meaning: if it drops no byte of a literal, as when no literal but the last ends
   in an escaped backslash, a text that is accepted as a whole gives the same tree when it is parsed
   after minifying, again as a whole.
   */
  lemma MinifyPreserves(s: Str)
    requires NulFree(s) && ParseText(s, true).Some? && (Kept(s) || LiteralsFine(s, 0))
    ensures ParseText(Minified(s), true) == Some(Parsed(ParseText(s, true).value.value, |Minified(s)|))
  {
    hide Minified, LiteralsFine, ParseText;
    if !Kept(s) {
      FineIsKept(s, 0);
    }
    hide Kept;
    MinifiedParse(s);
  }

  /**
   Only then, for a text without strings cut short by a NUL and from whose literals minifying drops
   nothing but white space.
   */
  lemma MinifyPreservesIff(s: Str)
    requires NulFree(s) && ParseText(s, true).Some?
    requires BlanksOnly(s, 0, Outside)
    ensures var r := ParseText(Minified(s), true);
      r.Some? && r.value.value == ParseText(s, true).value.value <==> Kept(s)
  {
    hide Minified, ParseText, Kept, BlanksOnly;
    MinifiedParse(s);
  }

  // ----- why literals are restricted -----

  /**
   From ["\\"," a"] minifying removes the blank inside the second literal: the first one is taken to
   go on up to its opening quote.
   */
  lemma MinifyChangesValue()
    ensures var v, w := Array([String([92]), String([32, 97])]), Array([String([92]), String([97])]);
      var s := Text(v, false, 0);
      && !Kept(s) && ParseText(s, true) == Some(Parsed(v, |s|))
      && Minified(s) == Text(w, false, 0) && ParseText(Minified(s), true) == Some(Parsed(w, |Minified(s)|))
  {
    var a, b, e := String([92]), String([32, 97]), String([97]);
    BackslashText(a, b, [32, 97]);
    BackslashText(a, e, [97]);
    var v, w := Array([a, b]), Array([a, e]);
    var s: Str := [91, 34, 92, 92, 34, 44, 34, 32, 97, 34, 93];
    assert Text(v, false, 0) == s;
    assert Text(w, false, 0) == [91, 34, 92, 92, 34, 44, 34, 97, 34, 93];
    hide Kept, Minified;
    SwallowedLiteral(s);
    TwoStrings(v, a, b);
    TwoStrings(w, a, e);
    hide Text, Printable, Nesting, ParseText;
    TreeRoundTrip(v, false, true);
    TreeRoundTrip(w, false, true);
  }

  lemma TwoStrings(v: Json, a: Json, b: Json)
    requires v == Array([a, b]) && a.String? && b.String? && NulFree(a.s) && NulFree(b.s)
    ensures Printable(v) && Nesting(v) <= NESTING_LIMIT
  {
    assert [a, b][1..] == [b] && [b][1..] == [];
    assert NestingOfItems([]) == 0 && NestingOfItems([b]) == 0 && NestingOfItems([a, b]) == 0;
  }

  lemma BackslashText(a: Json, b: Json, t: Str)
    requires a == String([92]) && b == String(t) && (t == [32, 97] || t == [97])
    ensures Text(Array([a, b]), false, 0) == [91, 34, 92, 92, 34, 44, 34] + t + [34, 93]
  {
    assert Escaped([92]) == [92, 92] by {
      assert [92][1..] == [];
    }
    assert Escaped([97]) == [97] by {
      assert [97][1..] == [];
    }
    if t == [32, 97] {
      assert t[1..] == [97];
      assert Escaped(t) == [32] + Escaped([97]);
    }
    assert Escaped(t) == t;
    hide Escaped;
    assert [a, b][1..] == [b] && [b][1..] == [];
    assert ItemsText([], false, 0) == [93];
    assert ItemsText([b], false, 0) == [34] + t + [34] + ([] + [93]);
    assert ItemsText([a, b], false, 0) == [34, 92, 92, 34] + ([44] + ItemsText([b], false, 0));
  }

  /** What the example's literals are taken for. */
  lemma SwallowedTaken(s: Str)
    requires s == [91, 34, 92, 92, 34, 44, 34, 32, 97, 34, 93]
    ensures !Kept(s)
    ensures LiteralEnd(s, 2) == 7 && LiteralEnd(s, 10) == 11
  {
    assert Scan(s, 4) == Some(4);
    assert Scan(s, 2) == Some(4);
    hide Scan;
    SwallowedKept(s);
    hide LiteralEnd, Kept;
    SwallowsNext(s, 1, 6);
    LiteralRound(s, 10);
    LiteralOver(s, 11);
  }

  /** The first literal leaves `minify_string` at work, so that the blank in the second one stands outside for it. */
  lemma SwallowedKept(s: Str)
    requires s == [91, 34, 92, 92, 34, 44, 34, 32, 97, 34, 93] && Scan(s, 2) == Some(4)
    ensures !Kept(s)
  {
    InLiteral(s, 2, 4);
    assert ModeAfter(s, 1, 5, Outside) == Inside;
    assert Scan(s, 7) == Some(9) by {
      assert Scan(s, 9) == Some(9);
      assert Scan(s, 8) == Some(9);
    }
    hide Scan;
    LossStep(s, 6, 10, Inside);
    LossStep(s, 7, 10, Outside);
    hide Loss;
    assert !LiteralsKept(s, 6, Inside);
    assert !LiteralsKept(s, 5, Inside);
    hide ModeAfter;
    assert !LiteralsKept(s, 1, Outside);
  }

  lemma SwallowedLiteral(s: Str)
    requires s == [91, 34, 92, 92, 34, 44, 34, 32, 97, 34, 93]
    ensures Minified(s) == [91, 34, 92, 92, 34, 44, 34, 97, 34, 93] && !Kept(s)
  {
    SwallowedTaken(s);
    hide LiteralEnd, MinifiedFrom, Kept;
    SwallowedTail(s);
    MinifiedStep(s, 1);
    MinifiedStep(s, 0);
    assert s[1..7] == [34, 92, 92, 34, 44, 34];
  }

  lemma SwallowedTail(s: Str)
    requires s == [91, 34, 92, 92, 34, 44, 34, 32, 97, 34, 93] && LiteralEnd(s, 10) == 11
    ensures MinifiedFrom(s, 7) == [97, 34, 93]
  {
    hide LiteralEnd, MinifiedFrom;
    NothingLeft(s);
    MinifiedStep(s, 9);
    MinifiedStep(s, 8);
    MinifiedStep(s, 7);
    assert s[9..11] == [34, 93];
  }
}
