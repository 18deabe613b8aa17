/**
 The text that cJSON.c prints for a tree, and how each piece of it is parsed back: numbers, strings, the
 elements of arrays and the members of objects with their separators, line ends and indentation. The text
 of a list includes its closing bracket or brace, so that every piece is known by what follows it; the
 lemmas speak of places in a larger buffer, where a text occurs.
 */
module PrintText {
  import opened Prelude
  import opened Decimal
  import opened Json
  import opened StringCodec
  import opened StringLaws
  import opened Parser

  /** The trees meant: integers only, and strings that C strings can hold. */
  ghost predicate Printable(v: Json) {
    match v
    case Number(n) => INT_MIN <= n <= INT_MAX
    case Real(_) => false
    case String(s) => NulFree(s)
    case Array(items) => forall i | 0 <= i < |items| :: Printable(items[i])
    case Object(members) => PrintableMembers(members)
    case _ => true
  }

  ghost predicate PrintableMembers(members: seq<Member>) {
    forall i | 0 <= i < |members| :: NulFree(members[i].key) && Printable(members[i].value)
  }

  /** How deeply arrays and objects are nested in `v`. */
  function Nesting(v: Json): nat
    decreases v, 1
  {
    match v
    case Array(items) => 1 + NestingOfItems(items)
    case Object(members) => 1 + NestingOfMembers(members)
    case _ => 0
  }

  function NestingOfItems(items: seq<Json>): nat
    decreases items, 0
  {
    if items == [] then 0
    else
      var a, b := Nesting(items[0]), NestingOfItems(items[1..]);
      if a < b then b else a
  }

  function NestingOfMembers(members: seq<Member>): nat
    decreases members, 0
  {
    if members == [] then 0
    else
      var a, b := Nesting(members[0].value), NestingOfMembers(members[1..]);
      if a < b then b else a
  }

  const NEWLINE: byte := 10
  const TAB: byte := 9
  const SPACE: byte := 32

  function Tabs(n: nat): (s: Str)
    ensures |s| == n && forall i | 0 <= i < n :: s[i] == TAB
  {
    seq(n, i => TAB)
  }

  /** `%d`. */
  function IntText(n: int): Str {
    if n < 0 then [MINUS] + Digits(-n) else Digits(n)
  }

  function Gap(format: bool): Str {
    if format then [NEWLINE] else []
  }

  function Indent(format: bool, depth: nat): Str {
    if format then Tabs(depth) else []
  }

  function ColonText(format: bool): Str {
    if format then [COLON, TAB] else [COLON]
  }

  function Separator(more: bool, format: bool): Str {
    if !more then [] else if format then [COMMA, SPACE] else [COMMA]
  }

  function LineEnd(more: bool, format: bool): Str {
    if more then [COMMA] + Gap(format) else Gap(format)
  }

  /** What `print_value` writes, `depth` arrays and objects down. */
  function Text(v: Json, format: bool, depth: nat): Str
    decreases v, 1
  {
    match v
    case Null => NULL_WORD
    case False => FALSE_WORD
    case True => TRUE_WORD
    case Number(n) => IntText(n)
    case Real(literal) => literal
    case String(s) => Quoted(s)
    case Array(items) => [OPEN_BRACKET] + ItemsText(items, format, depth)
    case Object(members) => [OPEN_BRACE] + (Gap(format) + MembersText(members, format, depth))
  }

  /** The elements of an array at `depth`, and its closing bracket. */
  function ItemsText(items: seq<Json>, format: bool, depth: nat): Str
    decreases items, 0
  {
    if items == [] then [CLOSE_BRACKET]
    else Text(items[0], format, depth + 1) + (Separator(|items| > 1, format) + ItemsText(items[1..], format, depth))
  }

  /** The members of an object at `depth`, and its closing brace. */
  function MembersText(members: seq<Member>, format: bool, depth: nat): Str
    decreases members, 0
  {
    if members == [] then Indent(format, depth) + [CLOSE_BRACE]
    else
      Indent(format, depth + 1) + (Quoted(members[0].key)
          + (ColonText(format) + (Text(members[0].value, format, depth + 1)
        + (LineEnd(|members| > 1, format) + MembersText(members[1..], format, depth)))))
  }

  // ----- pieces -----

  /** The byte at `o`, if there is one, does not continue a number. */
  predicate NumberEnds(c: Str, o: nat) {
    o < |c| ==> !NumberByte(c[o])
  }

  lemma {:induction false} DigitsRun(t: Str, i: nat, j: nat)
    requires i <= j <= |t| && (forall k | i <= k < j :: IsDigit(t[k]))
    requires (j < |t| ==> !IsDigit(t[j]))
    ensures DigitsEnd(t, i) == j
    decreases j - i
  {
    if i < j {
      DigitsRun(t, i + 1, j);
    }
  }

  lemma {:induction false} NumberRun(c: Str, o: nat, n: nat, left: nat)
    requires o + n <= |c| && n <= left && (forall k | o <= k < o + n :: NumberByte(c[k]))
    requires NumberEnds(c, o + n)
    ensures NumberEnd(c, o, left) == o + n
    decreases n
  {
    if n > 0 {
      NumberRun(c, o + 1, n - 1, left - 1);
    }
  }

  lemma {:induction false} DigitsShort(n: nat, bound: nat, k: nat)
    requires n < bound && bound == Power10(k) && k > 0
    ensures |Digits(n)| <= k
    decreases k
  {
    if n >= 10 {
      assert Power10(k) == 10 * Power10(k - 1);
      DigitsShort(n / 10, Power10(k - 1), k - 1);
    }
  }

  lemma IntShort(n: int)
    requires INT_MIN <= n <= INT_MAX
    ensures 0 < |IntText(n)| <= 11
  {
    assert Power10(5) == 100000;
    assert Power10(10) == 10000000000;
    DigitsShort(if n < 0 then -n else n, 10000000000, 10);
  }

  lemma IntIsNumber(n: int)
    requires INT_MIN <= n <= INT_MAX
    ensures StrtodLength(IntText(n)) == |IntText(n)| && NumberItem(IntText(n)) == Number(n)
    ensures forall k | 0 <= k < |IntText(n)| :: NumberByte(IntText(n)[k])
    ensures IntText(n)[0] == MINUS || IsDigit(IntText(n)[0])
  {
    var t := IntText(n);
    var digits := Digits(if n < 0 then -n else n);
    DigitsExact(if n < 0 then -n else n);
    if n < 0 {
      assert t[1..] == digits && t[0] == MINUS;
      DigitsRun(t, 1, |t|);
    } else {
      DigitsRun(t, 0, |t|);
    }
  }

  /** A printed integer is parsed back. */
  lemma NumberReadBack(c: Str, o: nat, n: int)
    requires INT_MIN <= n <= INT_MAX && Occurs(c, o, IntText(n))
    requires NumberEnds(c, o + |IntText(n)|)
    ensures NumberAt(c, o) == Some(Parsed(Number(n), o + |IntText(n)|))
    ensures o < |c|
    ensures c[o] == MINUS || IsDigit(c[o])
  {
    hide IntText, StrtodLength, NumberItem, NumberEnd, NumberByte, NumberEnds, Occurs;
    var t := IntText(n);
    IntShort(n);
    IntIsNumber(n);
    NumberCopied(c, o, t);
    OccursSlice(c, o, t);
    assert t[..|t|] == t;
  }

  lemma OccursSlice(c: Str, o: nat, t: Str)
    requires Occurs(c, o, t)
    ensures o + |t| <= |c| && c[o..o + |t|] == t
  {
  }

  lemma NumberCopied(c: Str, o: nat, t: Str)
    requires Occurs(c, o, t) && 0 < |t| <= 63 && (forall k | 0 <= k < |t| :: NumberByte(t[k]))
    requires NumberEnds(c, o + |t|)
    ensures NumberEnd(c, o, 63) == o + |t| && c[o] == t[0]
  {
    OccursAt(c, o, t);
    forall k | o <= k < o + |t| ensures NumberByte(c[k]) {
      assert c[o + (k - o)] == t[k - o];
    }
    assert c[o + 0] == t[0];
    NumberRun(c, o, |t|, 63);
  }

  lemma {:induction false} BlankRun(c: Str, o: nat, n: nat)
    requires o + n < |c| && (forall k | o <= k < o + n :: c[k] <= 32) && c[o + n] > 32
    ensures Skip(c, o) == o + n && SkipBlank(c, o) == o + n
    decreases n
  {
    if n > 0 {
      BlankRun(c, o + 1, n - 1);
    }
  }

  /** White space before a visible byte is skipped. */
  lemma SkipsPiece(c: Str, o: nat, blank: Str)
    requires Occurs(c, o, blank) && (forall k | 0 <= k < |blank| :: blank[k] <= 32)
    requires o + |blank| < |c| && c[o + |blank|] > 32
    ensures Skip(c, o) == o + |blank|
  {
    OccursAt(c, o, blank);
    forall k | o <= k < o + |blank| ensures c[k] <= 32 {
      assert c[o + (k - o)] == blank[k - o];
    }
    BlankRun(c, o, |blank|);
  }

  lemma {:induction false} SkipTwice(c: Str, o: nat)
    requires o <= |c|
    ensures Skip(c, Skip(c, o)) == Skip(c, o)
  {
    var p := SkipBlank(c, o);
    if o < |c| && p == |c| {
      assert SkipBlank(c, p) == p;
      LastBlank(c, o);
    }
  }

  lemma {:induction false} LastBlank(c: Str, o: nat)
    requires o < |c| && SkipBlank(c, o) == |c|
    ensures SkipBlank(c, |c| - 1) == |c|
    decreases |c| - o
  {
    if o < |c| - 1 {
      LastBlank(c, o + 1);
    }
  }

  lemma NextByte(c: Str, o: nat, t: Str)
    requires Occurs(c, o, t) && t != []
    ensures o < |c| && c[o] == t[0]
  {
    OccursAt(c, o, t);
    assert c[o + 0] == t[0];
  }

  /** A visible byte is not skipped. */
  lemma SkipsNothing(c: Str, o: nat)
    requires o < |c| && c[o] > 32
    ensures Skip(c, o) == o
  {
  }

  /** A printed value starts with a visible byte that ends no list. */
  predicate Starts(b: byte) {
    b > 32 && b != COMMA && b != COLON && b != CLOSE_BRACKET && b != CLOSE_BRACE
  }

  lemma TextStarts(v: Json, format: bool, depth: nat)
    requires Printable(v)
    ensures Text(v, format, depth) != [] && Starts(Text(v, format, depth)[0])
  {
    if v.Number? {
      IntShort(v.n);
      IntIsNumber(v.n);
    }
  }

  // ----- the round trip -----

  /** Parsing a printed value gives it back and ends right behind it. */
  lemma {:induction false} ValueReadBack(c: Str, o: nat, v: Json, format: bool, indent: nat, depth: nat)
    requires Printable(v) && depth + Nesting(v) <= NESTING_LIMIT
    requires Occurs(c, o, Text(v, format, indent))
    requires NumberEnds(c, o + |Text(v, format, indent)|)
    ensures ValueAt(c, o, depth) == Some(Parsed(v, o + |Text(v, format, indent)|))
    decreases v, 2
  {
    hide ArrayAt, ObjectAt, ValueAt, Occurs, ItemsText, MembersText, Quoted, IntText, Gap;
    match v
    case Array(items) =>
      BracketFirst(c, o, ItemsText(items, format, indent), OPEN_BRACKET);
      ArrayReadBack(c, o, items, format, indent, depth);
      ListStarts(c, o, depth);
    case Object(members) =>
      BracketFirst(c, o, Gap(format) + MembersText(members, format, indent), OPEN_BRACE);
      ObjectReadBack(c, o, members, format, indent, depth);
      ListStarts(c, o, depth);
    case _ =>
      ScalarReadBack(c, o, v, format, indent, depth);
  }

  lemma BracketFirst(c: Str, o: nat, t: Str, b: byte)
    requires Occurs(c, o, [b] + t)
    ensures ByteIs(c, o, b)
  {
    NextByte(c, o, [b] + t);
  }

  lemma WordStarts(c: Str, o: nat, word: Str)
    requires word != []
    ensures StartsWith(c, o, word) ==> o < |c| && c[o] == word[0]
  {
    if StartsWith(c, o, word) {
      assert c[o] == c[o..o + |word|][0];
    }
  }

  /** The first byte decides which function parses a list, a string or a number. */
  lemma ListStarts(c: Str, o: nat, depth: nat)
    requires o < |c| && c[o] != NULL_WORD[0] && c[o] != FALSE_WORD[0] && c[o] != TRUE_WORD[0]
    ensures c[o] == OPEN_BRACKET ==> ValueAt(c, o, depth) == ArrayAt(c, o, depth)
    ensures c[o] == OPEN_BRACE ==> ValueAt(c, o, depth) == ObjectAt(c, o, depth)
    ensures c[o] == MINUS || IsDigit(c[o]) ==> ValueAt(c, o, depth) == NumberAt(c, o)
    ensures c[o] == QUOTE ==>
      ValueAt(c, o, depth)
      == var s := StringAt(c, o);
         if s.None? then None else Some(Parsed(String(s.value.value), s.value.next))
  {
    WordStarts(c, o, NULL_WORD);
    WordStarts(c, o, FALSE_WORD);
    WordStarts(c, o, TRUE_WORD);
    hide ArrayAt, ObjectAt, NumberAt, StringAt, StartsWith;
  }

  lemma ScalarReadBack(c: Str, o: nat, v: Json, format: bool, indent: nat, depth: nat)
    requires Printable(v) && !v.Array? && !v.Object?
    requires Occurs(c, o, Text(v, format, indent))
    requires NumberEnds(c, o + |Text(v, format, indent)|)
    ensures ValueAt(c, o, depth) == Some(Parsed(v, o + |Text(v, format, indent)|))
  {
    hide ArrayAt, ObjectAt, NumberAt, StringAt, IntText, Quoted;
    if v.Number? {
      hide ValueAt;
      NumberReadBack(c, o, v.n);
      ListStarts(c, o, depth);
    } else if v.String? {
      hide ValueAt;
      QuotedStarts(v.s);
      NextByte(c, o, Quoted(v.s));
      QuotedReadBack(c, o, v.s);
      ListStarts(c, o, depth);
    } else {
      NextByte(c, o, Text(v, format, indent));
    }
  }

  lemma {:induction false} ArrayReadBack(c: Str, o: nat, items: seq<Json>, format: bool, indent: nat,
      depth: nat)
    requires Printable(Array(items)) && depth + 1 + NestingOfItems(items) <= NESTING_LIMIT
    requires Occurs(c, o, [OPEN_BRACKET] + ItemsText(items, format, indent))
    requires ByteIs(c, o, OPEN_BRACKET)
    ensures ArrayAt(c, o, depth) == Some(Parsed(Array(items), o + 1 + |ItemsText(items, format, indent)|))
    decreases items, 1
  {
    hide ItemsAt, ArrayAt, Occurs, Text, Skip;
    var t := ItemsText(items, format, indent);
    OccursSplit(c, o, [OPEN_BRACKET], t);
    NextByte(c, o + 1, t);
    if items == [] {
      assert t == [CLOSE_BRACKET];
      SkipsNothing(c, o + 1);
      EmptyAssembled(c, o, depth, items);
    } else {
      TextStarts(items[0], format, indent + 1);
      assert Starts(t[0]);
      hide ItemsText;
      SkipsNothing(c, o + 1);
      ItemsReadBack(c, o + 1, o + 1, items, format, indent, depth + 1);
      ArrayAssembled(c, o, depth, Parsed(items, o + 1 + |t|));
    }
  }

  lemma EmptyAssembled(c: Str, o: nat, depth: nat, items: seq<Json>)
    requires items == []
    requires ByteIs(c, o, OPEN_BRACKET) && o + 1 < |c| && depth < NESTING_LIMIT
    requires Skip(c, o + 1) == o + 1 && ByteIs(c, o + 1, CLOSE_BRACKET)
    ensures ArrayAt(c, o, depth) == Some(Parsed(Array(items), o + 2))
  {
    hide Skip, ItemsAt;
    assert Array(items) == Array([]);
  }

  lemma ArrayAssembled(c: Str, o: nat, depth: nat, items: Parsed<seq<Json>>)
    requires ByteIs(c, o, OPEN_BRACKET) && o + 1 < |c| && depth < NESTING_LIMIT
    requires Skip(c, o + 1) == o + 1 && !ByteIs(c, o + 1, CLOSE_BRACKET)
    requires ItemsAt(c, o + 1, depth + 1) == Some(items)
    ensures ArrayAt(c, o, depth) == Some(Parsed(Array(items.value), items.next))
  {
    hide Skip, ItemsAt;
  }

  lemma NestingParts(items: seq<Json>)
    requires items != []
    ensures Nesting(items[0]) <= NestingOfItems(items)
    ensures NestingOfItems(items[1..]) <= NestingOfItems(items)
  {
  }

  lemma {:induction false} ItemsReadBack(c: Str, p: nat, q: nat, items: seq<Json>, format: bool,
      indent: nat, depth: nat)
    requires items != [] && (forall i | 0 <= i < |items| :: Printable(items[i]))
    requires depth + NestingOfItems(items) <= NESTING_LIMIT
    requires p <= |c| && Skip(c, p) == q && Occurs(c, q, ItemsText(items, format, indent))
    ensures ItemsAt(c, p, depth) == Some(Parsed(items, q + |ItemsText(items, format, indent)|))
    decreases items, 0
  {
    hide Occurs, Text, ValueAt, Nesting, NestingOfItems, Separator, Skip, Printable, ItemsText, ItemsAt;
    var first, rest := items[0], items[1..];
    var t, separator, tail := Text(first, format, indent + 1), Separator(|items| > 1, format),
        ItemsText(rest, format, indent);
    NestingParts(items);
    ItemsPieces(c, q, items, format, indent);
    var r := q + |t|;
    ValueReadBack(c, q, first, format, indent + 1, depth);
    SkipsNothing(c, r);
    if rest != [] {
      ItemsReadBack(c, r + 1, r + |separator|, rest, format, indent, depth);
    }
    ItemsAssembled(c, p, q, r, items, depth);
  }

  /** The pieces of a non-empty array's text, and what is skipped between them. */
  lemma ItemsPieces(c: Str, q: nat, items: seq<Json>, format: bool, indent: nat)
    requires items != [] && (forall i | 0 <= i < |items| :: Printable(items[i]))
    requires Occurs(c, q, ItemsText(items, format, indent))
    ensures var t, separator, tail := Text(items[0], format, indent + 1), Separator(|items| > 1, format),
      ItemsText(items[1..], format, indent);
      var r := q + |t|;
      && |ItemsText(items, format, indent)| == |t| + |separator| + |tail|
      && Occurs(c, q, t) && r < |c| && NumberEnds(c, r) && c[r] > 32
      && (|items| == 1 ==> c[r] == CLOSE_BRACKET && |separator| == 0 && |tail| == 1)
      && (|items| > 1 ==> c[r] == COMMA && Skip(c, r + 1) == r + |separator| && Occurs(c, r + |separator|, tail))
  {
    hide Occurs, Text, Skip, Printable;
    var t, separator, tail := Text(items[0], format, indent + 1), Separator(|items| > 1, format),
        ItemsText(items[1..], format, indent);
    OccursSplit(c, q, t, separator + tail);
    var r := q + |t|;
    OccursSplit(c, r, separator, tail);
    if |items| == 1 {
      NextByte(c, r, tail);
    } else {
      NextByte(c, r, separator);
      TextStarts(items[1], format, indent + 1);
      assert tail != [] && tail[0] > 32;
      hide ItemsText;
      NextByte(c, r + |separator|, tail);
      SeparatorSkipped(c, r, format);
    }
  }

  lemma ItemsAssembled(c: Str, p: nat, q: nat, r: nat, items: seq<Json>, depth: nat)
    requires items != [] && p <= |c| && Skip(c, p) == q && q <= r < |c| && Skip(c, r) == r
    requires ValueAt(c, q, depth) == Some(Parsed(items[0], r))
    requires |items| == 1 ==> c[r] == CLOSE_BRACKET
    requires |items| > 1 ==>
      c[r] == COMMA && ItemsAt(c, r + 1, depth).Some? && ItemsAt(c, r + 1, depth).value.value == items[1..]
    ensures ItemsAt(c, p, depth)
      == Some(Parsed(items, if |items| == 1 then r + 1 else ItemsAt(c, r + 1, depth).value.next))
  {
    hide ValueAt, Skip;
    assert items == [items[0]] + items[1..];
    assert |items| == 1 ==> items == [items[0]];
  }

  lemma SeparatorSkipped(c: Str, r: nat, format: bool)
    requires Occurs(c, r, Separator(true, format)) && r + |Separator(true, format)| < |c|
    requires c[r + |Separator(true, format)|] > 32
    ensures Skip(c, r + 1) == r + |Separator(true, format)|
  {
    if format {
      OccursAt(c, r, Separator(true, format));
      assert c[r + 1] == SPACE;
      SkipsPiece(c, r + 1, [SPACE]);
    } else {
      SkipsNothing(c, r + 1);
    }
  }

  // ----- objects -----

  /** A new line and indentation are skipped. */
  lemma BlankThen(c: Str, o: nat, format: bool, depth: nat)
    requires Occurs(c, o, Gap(format)) && Occurs(c, o + |Gap(format)|, Indent(format, depth))
    requires var q := o + |Gap(format)| + |Indent(format, depth)|; q < |c| && c[q] > 32
    ensures Skip(c, o) == o + |Gap(format)| + |Indent(format, depth)|
  {
    var blank := Gap(format) + Indent(format, depth);
    OccursSplit(c, o, Gap(format), Indent(format, depth));
    hide Occurs;
    SkipsPiece(c, o, blank);
  }

  /** Where the pieces of a non-empty object's text stand. */
  datatype Places = Places(key: nat, colon: nat, value: nat, end: nat, rest: nat)

  function PlacesOf(r: nat, members: seq<Member>, format: bool, indent: nat): Places
    requires members != []
  {
    var key := r + |Indent(format, indent + 1)|;
    var colon := key + |Quoted(members[0].key)|;
    var value := colon + |ColonText(format)|;
    var end := value + |Text(members[0].value, format, indent + 1)|;
    Places(key, colon, value, end, end + |LineEnd(|members| > 1, format)|)
  }

  ghost predicate Pieces(c: Str, r: nat, members: seq<Member>, format: bool, indent: nat)
    requires members != []
  {
    var x := PlacesOf(r, members, format, indent);
    && Occurs(c, r, Indent(format, indent + 1)) && Occurs(c, x.key, Quoted(members[0].key))
       && Occurs(c, x.colon, ColonText(format))
    && Occurs(c, x.value, Text(members[0].value, format, indent + 1))
       && Occurs(c, x.end, LineEnd(|members| > 1, format))
    && Occurs(c, x.rest, MembersText(members[1..], format, indent))
  }

  lemma MembersPieces(c: Str, r: nat, members: seq<Member>, format: bool, indent: nat)
    requires members != [] && Occurs(c, r, MembersText(members, format, indent))
    ensures Pieces(c, r, members, format, indent)
    ensures r + |MembersText(members, format, indent)|
         == PlacesOf(r, members, format, indent).rest + |MembersText(members[1..], format, indent)|
  {
    hide Occurs, Text, Quoted, Indent, ColonText, LineEnd;
    var t, z := Text(members[0].value, format, indent + 1), MembersText(members[1..], format, indent);
    OccursSix(c, r, Indent(format, indent + 1), Quoted(members[0].key), ColonText(format), t,
        LineEnd(|members| > 1, format), z);
  }

  lemma OccursSix(c: Str, r: nat, a: Str, k: Str, b: Str, t: Str, l: Str, z: Str)
    requires Occurs(c, r, a + (k + (b + (t + (l + z)))))
    ensures Occurs(c, r, a) && Occurs(c, r + |a|, k) && Occurs(c, r + |a| + |k|, b)
    ensures Occurs(c, r + |a| + |k| + |b|, t)
    ensures Occurs(c, r + |a| + |k| + |b| + |t|, l)
    ensures Occurs(c, r + |a| + |k| + |b| + |t| + |l|, z)
    ensures |a + (k + (b + (t + (l + z))))| == |a| + |k| + |b| + |t| + |l| + |z|
  {
    hide Occurs;
    OccursSplit(c, r, a, k + (b + (t + (l + z))));
    OccursSplit(c, r + |a|, k, b + (t + (l + z)));
    OccursSplit(c, r + |a| + |k|, b, t + (l + z));
    OccursSplit(c, r + |a| + |k| + |b|, t, l + z);
    OccursSplit(c, r + |a| + |k| + |b| + |t|, l, z);
  }

  lemma QuotedStarts(key: Str)
    ensures Quoted(key) != [] && Quoted(key)[0] == QUOTE
  {
  }

  lemma FirstPieces(c: Str, r: nat, members: seq<Member>, format: bool, indent: nat)
    requires members != [] && Pieces(c, r, members, format, indent)
    ensures Occurs(c, r, Indent(format, indent + 1))
    ensures Occurs(c, r + |Indent(format, indent + 1)|, Quoted(members[0].key))
  {
    hide Occurs, Text, MembersText, Indent, Gap, Quoted, ColonText, LineEnd;
  }

  /** Indentation leads to the quote of the first key. */
  lemma KeyFound(c: Str, p: nat, members: seq<Member>, format: bool, indent: nat)
    requires members != [] && Occurs(c, p, Gap(format))
    requires Occurs(c, p + |Gap(format)|, MembersText(members, format, indent))
    ensures var q := p + |Gap(format)| + |Indent(format, indent + 1)|;
      Skip(c, p) == q && ByteIs(c, q, QUOTE) && Skip(c, q) == q
  {
    hide Occurs, Text, MembersText, Indent, Gap, Skip, Quoted, ColonText, LineEnd, Pieces, ByteIs, NumberEnds, PlacesOf;
    var r := p + |Gap(format)|;
    MembersPieces(c, r, members, format, indent);
    var q := r + |Indent(format, indent + 1)|;
    QuotedStarts(members[0].key);
    FirstPieces(c, r, members, format, indent);
    NextByte(c, q, Quoted(members[0].key));
    BlankThen(c, p, format, indent + 1);
    SkipsNothing(c, q);
    ByteFound(c, q, QUOTE);
  }

  lemma ByteFound(c: Str, q: nat, b: byte)
    ensures q < |c| && c[q] == b ==> ByteIs(c, q, b)
  {
  }

  lemma {:induction false} ObjectReadBack(c: Str, o: nat, members: seq<Member>, format: bool, indent: nat,
      depth: nat)
    requires PrintableMembers(members) && depth + 1 + NestingOfMembers(members) <= NESTING_LIMIT
    requires Occurs(c, o, [OPEN_BRACE] + (Gap(format) + MembersText(members, format, indent)))
    requires ByteIs(c, o, OPEN_BRACE)
    ensures ObjectAt(c, o, depth)
      == Some(Parsed(Object(members), o + 1 + |Gap(format)| + |MembersText(members, format, indent)|))
    decreases members, 1
  {
    hide Occurs, Text, MembersAt, Gap, Indent, Skip, PrintableMembers, NestingOfMembers, MembersText;
    var t := MembersText(members, format, indent);
    var r := o + 1 + |Gap(format)|;
    OccursSplit(c, o, [OPEN_BRACE], Gap(format) + t);
    OccursSplit(c, o + 1, Gap(format), t);
    if members == [] {
      EmptyClosed(c, o + 1, format, indent);
    } else {
      KeyFound(c, o + 1, members, format, indent);
      MembersReadBack(c, r + |Indent(format, indent + 1)|, r, members, format, indent, depth + 1);
    }
  }

  /** Behind a new line the closing brace of an object is found. */
  lemma EmptyClosed(c: Str, p: nat, format: bool, indent: nat)
    requires Occurs(c, p, Gap(format))
    requires Occurs(c, p + |Gap(format)|, MembersText([], format, indent))
    ensures var z := p + |Gap(format)| + |MembersText([], format, indent)|;
      Skip(c, p) == z - 1 && ByteIs(c, z - 1, CLOSE_BRACE)
  {
    var r := p + |Gap(format)|;
    OccursSplit(c, r, Indent(format, indent), [CLOSE_BRACE]);
    hide Occurs, Indent, Gap, Skip;
    NextByte(c, r + |Indent(format, indent)|, [CLOSE_BRACE]);
    BlankThen(c, p, format, indent);
  }

  /** The name of a printed member and its colon are read back. */
  lemma NameReadBack(c: Str, p: nat, q: nat, key: Str, format: bool)
    requires NulFree(key) && p < |c| && Skip(c, p) == q && Occurs(c, q, Quoted(key))
    requires var s := q + |Quoted(key)|; var w := s + |ColonText(format)|;
      Occurs(c, s, ColonText(format)) && w < |c| && c[w] > 32
    ensures var s := q + |Quoted(key)|;
      NameAt(c, p) == Some(Parsed(key, s + 1)) && Skip(c, s + 1) == s + |ColonText(format)|
  {
    var s := q + |Quoted(key)|;
    hide Quoted, StringAt, Occurs, Skip;
    QuotedReadBack(c, q, key);
    NextByte(c, s, ColonText(format));
    SkipsNothing(c, s);
    if format {
      OccursSplit(c, s, [COLON], [TAB]);
      assert [COLON] + [TAB] == ColonText(format);
      SkipsPiece(c, s + 1, [TAB]);
    } else {
      SkipsNothing(c, s + 1);
    }
  }

  lemma NestingMembers(members: seq<Member>)
    requires members != []
    ensures Nesting(members[0].value) <= NestingOfMembers(members)
    ensures NestingOfMembers(members[1..]) <= NestingOfMembers(members)
  {
  }

  lemma PrintableParts(members: seq<Member>)
    requires members != [] && PrintableMembers(members)
    ensures NulFree(members[0].key) && Printable(members[0].value)
    ensures PrintableMembers(members[1..])
  {
    hide Printable, NulFree;
  }

  lemma {:induction false} MembersReadBack(c: Str, p: nat, r: nat, members: seq<Member>, format: bool,
      indent: nat, depth: nat)
    requires members != [] && PrintableMembers(members)
    requires depth + NestingOfMembers(members) <= NESTING_LIMIT
    requires p < |c| && Skip(c, p) == r + |Indent(format, indent + 1)|
    requires Occurs(c, r, MembersText(members, format, indent))
    ensures MembersAt(c, p, depth) == Some(Parsed(members, r + |MembersText(members, format, indent)|))
    decreases members, 0
  {
    hide Occurs, Text, MembersText, ValueAt, Nesting, NestingOfMembers, Quoted, NameAt, Indent, LineEnd,
        ColonText, Skip, PrintableMembers, Printable, MembersAt;
    var first, rest := members[0], members[1..];
    NestingMembers(members);
    PrintableParts(members);
    MembersPieces(c, r, members, format, indent);
    var x := PlacesOf(r, members, format, indent);
    TextStarts(first.value, format, indent + 1);
    NextByte(c, x.value, Text(first.value, format, indent + 1));
    NameReadBack(c, p, x.key, first.key, format);
    hide Pieces;
    Continues(c, r, members, format, indent);
    ValueReadBack(c, x.value, first.value, format, indent + 1, depth);
    if rest != [] {
      MembersReadBack(c, x.end + 1, x.rest, rest, format, indent, depth);
    }
    MembersAssembled(c, p, x, members, depth);
  }

  /** What follows the first value: a comma and the next key, or the closing brace. */
  lemma Continues(c: Str, r: nat, members: seq<Member>, format: bool, indent: nat)
    requires members != [] && Pieces(c, r, members, format, indent)
    ensures var x := PlacesOf(r, members, format, indent);
      && NumberEnds(c, x.end) && x.end <= |c|
      && Occurs(c, x.value, Text(members[0].value, format, indent + 1))
      && (|members| > 1 ==> ByteIs(c, x.end, COMMA) && Skip(c, x.end) == x.end && x.end + 1 < |c|)
      && (|members| > 1 ==>
            Skip(c, x.end + 1) == x.rest + |Indent(format, indent + 1)|
                && Occurs(c, x.rest, MembersText(members[1..], format, indent)))
      && (|members| == 1 ==>
            var z := x.rest + |MembersText(members[1..], format, indent)|;
            Skip(c, x.end) == z - 1 && ByteIs(c, z - 1, CLOSE_BRACE))
  {
    hide Occurs, Text, MembersText, Quoted, Indent, ColonText, Skip;
    var x := PlacesOf(r, members, format, indent);
    if |members| > 1 {
      OccursSplit(c, x.end, [COMMA], Gap(format));
      NextByte(c, x.end, [COMMA]);
      SkipsNothing(c, x.end);
      KeyFound(c, x.end + 1, members[1..], format, indent);
    } else {
      assert members[1..] == [];
      EmptyClosed(c, x.end, format, indent);
      EndByte(c, x.end, format, indent);
    }
  }

  lemma EndByte(c: Str, p: nat, format: bool, indent: nat)
    requires Occurs(c, p, Gap(format))
    requires Occurs(c, p + |Gap(format)|, MembersText([], format, indent))
    ensures NumberEnds(c, p)
  {
    if format {
      NextByte(c, p, Gap(format));
    } else {
      NextByte(c, p, MembersText([], format, indent));
    }
  }

  lemma MembersAssembled(c: Str, p: nat, x: Places, members: seq<Member>, depth: nat)
    requires members != [] && p < |c|
    requires NameAt(c, p) == Some(Parsed(members[0].key, x.colon + 1))
    requires Skip(c, x.colon + 1) == x.value
    requires x.value <= |c|
    requires ValueAt(c, x.value, depth) == Some(Parsed(members[0].value, x.end))
    requires |members| == 1 ==> ByteIs(c, Skip(c, x.end), CLOSE_BRACE)
    requires |members| > 1 ==> ByteIs(c, x.end, COMMA) && Skip(c, x.end) == x.end
    requires |members| > 1 ==>
      MembersAt(c, x.end + 1, depth).Some? && MembersAt(c, x.end + 1, depth).value.value == members[1..]
    ensures MembersAt(c, p, depth)
         == Some(Parsed(members,
              if |members| == 1 then Skip(c, x.end) + 1 else MembersAt(c, x.end + 1, depth).value.next))
  {
    hide ValueAt, Skip, NameAt;
    var m := Member(members[0].key, members[0].value);
    assert m == members[0] && members == [m] + members[1..];
    assert |members| == 1 ==> members == [m];
  }
}
