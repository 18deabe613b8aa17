/**
 Whatever the parser accepts is a JSON text but for its leaves: brackets, braces, commas and colons stand where
 RFC 8259 has them. Looser are white space (any bytes up to the space), numbers (leading zeros, and digits on one
 side of the point only), and strings (any bytes between quotes that are not escaped).
 */
module Derivation {
  import opened Prelude
  import opened Decimal
  import opened Json
  import Utf8
  import opened StringCodec
  import opened StringLaws
  import opened Parser
  import Grammar

  predicate Digitals(s: Str) {
    forall i | 0 <= i < |s| :: IsDigit(s[i])
  }

  /** A number: digits on at least one side of the point. */
  predicate LooseNumeral(n: Grammar.Numeral) {
    && Digitals(n.whole) && (n.fraction.Some? ==> Digitals(n.fraction.value))
    && (n.whole != [] || (n.minus && n.fraction.Some? && n.fraction.value != []))
    && (n.exponent.Some? ==>
          var e := n.exponent.value;
          && (e.letter == 101 || e.letter == 69) && (e.sign == [] || e.sign == [43] || e.sign == [MINUS])
          && e.digits != [] && Digitals(e.digits))
    && |Grammar.NumeralText(n)| <= 63
  }

  /** Between the quotes of a string: bytes other than quote and backslash, and backslashes with a byte each. */
  predicate LooseBody(s: Str) {
    s != [] ==>
      if s[0] == BACKSLASH then |s| > 1 && LooseBody(s[2..]) else s[0] != QUOTE && LooseBody(s[1..])
  }

  /**
   From its start on, each backslash is a short escape of RFC 8259 or comes before a `u` and four bytes; as the
   decoding may take other bytes for these four than the search for the closing quote, one may be left at the end.
   */
  predicate Readable(s: Str) {
    s != [] ==>
      if s[0] != BACKSLASH then Readable(s[1..])
      else if |s| == 1 then true
      else if s[1] == LETTER_U then |s| >= 6 && Readable(s[6..])
      else s[1] in Ascii("\"\\/bfnrt") && Readable(s[2..])
  }

  predicate LooseString(body: Str) {
    LooseBody(body) && Readable(body)
  }

  predicate LooseWs(s: Str) {
    forall i | 0 <= i < |s| :: s[i] <= 32
  }

  datatype Form =
    | FWord(word: Str)
    | FNumber(n: Grammar.Numeral)
    | FString(body: Str)
    | FEmptyArray(ws: Str)
    | FArray(items: seq<Spot>)
    | FEmptyObject(ws: Str)
    | FObject(members: seq<Line>)

  /** A value with the white space around it. */
  datatype Spot = Spot(before: Str, form: Form, behind: Str)

  /** A member with the white space around its name. */
  datatype Line = Line(before: Str, name: Str, behind: Str, spot: Spot)

  function FormText(f: Form): Str
    decreases f, 2
  {
    match f
    case FWord(word) => word
    case FNumber(n) => Grammar.NumeralText(n)
    case FString(body) => [QUOTE] + body + [QUOTE]
    case FEmptyArray(ws) => [OPEN_BRACKET] + ws + [CLOSE_BRACKET]
    case FArray(items) => [OPEN_BRACKET] + SpotsText(items)
    case FEmptyObject(ws) => [OPEN_BRACE] + ws + [CLOSE_BRACE]
    case FObject(members) => [OPEN_BRACE] + LinesText(members)
  }

  function SpotText(s: Spot): Str
    decreases s, 3
  {
    s.before + FormText(s.form) + s.behind
  }

  /** The elements with commas between them, and the closing bracket. */
  function SpotsText(items: seq<Spot>): Str
    decreases items, 0
  {
    if items == [] then [CLOSE_BRACKET]
    else SpotText(items[0]) + (if |items| == 1 then [CLOSE_BRACKET] else [COMMA] + SpotsText(items[1..]))
  }

  function LineText(l: Line): Str
    decreases l, 4
  {
    l.before + ([QUOTE] + l.name + [QUOTE]) + l.behind + [COLON] + SpotText(l.spot)
  }

  /** The members with commas between them, and the closing brace. */
  function LinesText(members: seq<Line>): Str
    decreases members, 0
  {
    if members == [] then [CLOSE_BRACE]
    else LineText(members[0]) + (if |members| == 1 then [CLOSE_BRACE] else [COMMA] + LinesText(members[1..]))
  }

  /** The form is well-formed, and stands for a tree of this shape. */
  predicate Shows(f: Form, v: Json)
    decreases f, 2
  {
    match f
    case FWord(word) =>
      (word == Ascii("null") && v.Null?) || (word == Ascii("false") && v.False?) || (word == Ascii("true") && v.True?)
    case FNumber(n) => LooseNumeral(n) && v == NumberItem(Grammar.NumeralText(n))
    case FString(body) => LooseString(body) && v.String?
    case FEmptyArray(ws) => LooseWs(ws) && v == Array([])
    case FArray(items) => v.Array? && items != [] && SpotsShow(items, v.items)
    case FEmptyObject(ws) => LooseWs(ws) && v == Object([])
    case FObject(members) => v.Object? && members != [] && LinesShow(members, v.members)
  }

  predicate SpotShows(s: Spot, v: Json)
    decreases s, 3
  {
    LooseWs(s.before) && Shows(s.form, v) && LooseWs(s.behind)
  }

  predicate SpotsShow(items: seq<Spot>, v: seq<Json>)
    decreases items, 0
  {
    |items| == |v| && (items != [] ==> SpotShows(items[0], v[0]) && SpotsShow(items[1..], v[1..]))
  }

  predicate LineShows(l: Line, m: Member)
    decreases l, 4
  {
    LooseWs(l.before) && LooseString(l.name) && LooseWs(l.behind) && SpotShows(l.spot, m.value)
  }

  predicate LinesShow(members: seq<Line>, v: seq<Member>)
    decreases members, 0
  {
    |members| == |v| && (members != [] ==> LineShows(members[0], v[0]) && LinesShow(members[1..], v[1..]))
  }

  // ----- leaves -----

  lemma {:induction false} ScanBody(c: Str, i: nat, end: nat)
    requires i <= end < |c| && Scan(c, i) == Some(end)
    ensures LooseBody(c[i..end])
    decreases end - i
  {
    if i < end {
      if c[i] == BACKSLASH {
        EscapeToken(c, i, end);
        assert c[i..end][2..] == c[i + 2..end];
        ScanBody(c, i + 2, end);
      } else {
        PlainToken(c, i, end);
        assert c[i..end][1..] == c[i + 1..end];
        ScanBody(c, i + 1, end);
      }
    }
  }

  /** What can be decoded has only the escapes known. */
  lemma {:induction false} DecodeReadable(c: Str, p: nat, end: nat)
    requires p <= end < |c| && Decode(c, p, end).Some?
    ensures Readable(c[p..end])
    decreases end - p
  {
    hide Hex4, Utf8.Encoded, Ascii;
    if p < end {
      var s, t := c[p..end], TokenAt(c, p, end).value;
      if c[p] == BACKSLASH && p + 1 < end {
        Grammar.ShortEscapesExactly(c[p + 1]);
        if c[p + 1] != LETTER_U {
          assert s[2..] == c[p + 2..end];
          DecodeReadable(c, p + 2, end);
        } else {
          assert s[6..] == c[p + 6..end];
          DecodeReadable(c, p + t.length, end);
          if t.length == 12 {
            assert s[6..][6..] == c[p + 12..end];
          }
        }
      } else if c[p] != BACKSLASH {
        assert s[1..] == c[p + 1..end];
        DecodeReadable(c, p + 1, end);
      }
    }
  }

  lemma StringDerives(c: Str, o: nat) returns (body: Str)
    requires StringAt(c, o).Some?
    ensures LooseString(body) && Occurs(c, o, [QUOTE] + body + [QUOTE])
    ensures StringAt(c, o).value.next == o + |body| + 2
  {
    hide Decode, CString;
    var end := Scan(c, o + 1).value;
    ScanBody(c, o + 1, end);
    DecodeReadable(c, o + 1, end);
    hide LooseBody, Readable;
    body := c[o + 1..end];
    assert c[o..end + 1] == [QUOTE] + body + [QUOTE];
  }

  lemma SliceDigits(t: Str, i: nat, j: nat)
    requires i <= j <= |t| && forall k | i <= k < j :: IsDigit(t[k])
    ensures Digitals(t[i..j])
  {
  }

  /** The exponent `strtod` takes at `k`, if it takes one. */
  lemma ExponentTaken(t: Str, k: nat) returns (x: Option<Grammar.Exponent>, n: nat)
    requires k <= |t|
    ensures k <= n <= |t|
    ensures n == ExponentEnd(t, k)
    ensures x.None? ==> n == k
    ensures x.Some? ==>
      var e := x.value;
      && (e.letter == 101 || e.letter == 69) && (e.sign == [] || e.sign == [43] || e.sign == [MINUS])
      && e.digits != [] && Digitals(e.digits) && t[k..n] == [e.letter] + e.sign + e.digits
  {
    x, n := None, k;
    if k < |t| && (t[k] == 101 || t[k] == 69) {
      var s := if k + 1 < |t| && (t[k + 1] == 43 || t[k + 1] == MINUS) then k + 2 else k + 1;
      var e := DigitsEnd(t, s);
      if e > s {
        x, n := Some(Grammar.Exponent(t[k], t[k + 1..s], t[s..e])), e;
        SliceDigits(t, s, e);
        assert t[k..e] == [t[k]] + t[k + 1..s] + t[s..e];
      }
    }
  }

  /** Where the number ends that has its digits and its point up to `k`. */
  function ExponentEnd(t: Str, k: nat): (n: nat)
    requires k <= |t|
    ensures k <= n <= |t|
  {
    if k < |t| && (t[k] == 101 || t[k] == 69) then
      var s := if k + 1 < |t| && (t[k + 1] == 43 || t[k + 1] == MINUS) then k + 2 else k + 1;
      var e := DigitsEnd(t, s);
      if e > s then e else k
    else k
  }

  /** Its digits up to the point, and those behind it. */
  lemma MantissaTaken(t: Str, i: nat) returns (j: nat, k: nat, point: bool)
    requires StrtodLength(t) > 0 && (t[0] == MINUS || IsDigit(t[0])) && i == if t[0] == MINUS then 1 else 0
    ensures i <= j <= k <= |t| && Digitals(t[i..j]) && StrtodLength(t) == ExponentEnd(t, k)
    ensures if point then j < k && t[j] == DOT && Digitals(t[j + 1..k]) else j == k
    ensures i == j ==> i == 1 && j + 1 < k
  {
    j := DigitsEnd(t, i);
    point := ByteIs(t, j, DOT);
    k := if point then DigitsEnd(t, j + 1) else j;
    SliceDigits(t, i, j);
    if point {
      SliceDigits(t, j + 1, k);
    }
    assert i == 0 ==> j > 0;
  }

  /** What `strtod` takes of a text that starts like a JSON number is a number. */
  lemma NumeralTaken(t: Str) returns (m: Grammar.Numeral)
    requires StrtodLength(t) > 0 && (t[0] == MINUS || IsDigit(t[0])) && |t| <= 63
    ensures LooseNumeral(m) && Grammar.NumeralText(m) == t[..StrtodLength(t)]
  {
    hide StrtodLength, ExponentEnd, Grammar.NumeralText, Digitals;
    var i := if t[0] == MINUS then 1 else 0;
    var j, k, point := MantissaTaken(t, i);
    var x, n := ExponentTaken(t, k);
    var fraction := if point then Some(t[j + 1..k]) else None;
    m := Grammar.Numeral(i == 1, t[i..j], fraction, x);
    PartsOfNumeral(t, i, j, k, n, m);
  }

  lemma PartsOfNumeral(t: Str, i: nat, j: nat, k: nat, n: nat, m: Grammar.Numeral)
    requires i <= j <= k <= n <= |t| && i <= 1 && (m.minus <==> i == 1) && (i == 1 ==> t[0] == MINUS)
    requires m.whole == t[i..j]
    requires if m.fraction.None? then k == j else j < k && t[j] == DOT && m.fraction.value == t[j + 1..k]
    requires if m.exponent.None? then n == k
             else var e := m.exponent.value; t[k..n] == [e.letter] + e.sign + e.digits
    ensures Grammar.NumeralText(m) == t[..n]
  {
    assert Grammar.SignText(m) == t[..i];
    assert Grammar.FractionText(m) == t[j..k];
    assert Grammar.ExponentText(m) == t[k..n];
    assert t[..i] + t[i..j] == t[..j] && t[..j] + t[j..k] == t[..k] && t[..k] + t[k..n] == t[..n];
  }

  lemma NumberIs(c: Str, o: nat) returns (t: Str)
    requires o < |c| && NumberAt(c, o).Some?
    ensures 0 < StrtodLength(t) && |t| <= 63 && t[0] == c[o] && Occurs(c, o, t[..StrtodLength(t)])
    ensures NumberAt(c, o) == Some(Parsed(NumberItem(t[..StrtodLength(t)]), o + StrtodLength(t)))
  {
    hide StrtodLength, NumberItem, NumberEnd;
    t := c[o..NumberEnd(c, o, 63)];
    assert t[..StrtodLength(t)] == c[o..o + StrtodLength(t)];
  }

  lemma NumberDerives(c: Str, o: nat) returns (m: Grammar.Numeral)
    requires o < |c| && NumberAt(c, o).Some? && (c[o] == MINUS || IsDigit(c[o]))
    ensures Shows(FNumber(m), NumberAt(c, o).value.value) && Occurs(c, o, Grammar.NumeralText(m))
    ensures NumberAt(c, o).value.next == o + |Grammar.NumeralText(m)|
  {
    hide NumberAt, StrtodLength, NumberItem, LooseNumeral, Grammar.NumeralText, Occurs;
    var t := NumberIs(c, o);
    m := NumeralTaken(t);
  }

  /** Skipping white space passes bytes up to the space only. */
  lemma {:induction false} BlankSkipped(c: Str, o: nat)
    requires o <= |c|
    ensures forall i | o <= i < SkipBlank(c, o) :: c[i] <= 32
    decreases |c| - o
  {
    if o < |c| && c[o] <= 32 {
      BlankSkipped(c, o + 1);
    }
  }

  lemma WsDerives(c: Str, o: nat)
    requires o <= |c|
    ensures LooseWs(c[o..Skip(c, o)]) && Occurs(c, o, c[o..Skip(c, o)])
  {
    BlankSkipped(c, o);
    hide SkipBlank;
  }

  // ----- values -----

  /** What `f` shows stands at `o` and is what the parse yields. */
  ghost predicate Derived(c: Str, o: nat, f: Form, r: Option<Parsed<Json>>) {
    r.Some? && Shows(f, r.value.value) && Occurs(c, o, FormText(f)) && r.value.next == o + |FormText(f)|
  }

  /** An accepted value derives from the looser grammar. */
  lemma {:induction false} ValueDerives(c: Str, o: nat, depth: nat) returns (f: Form)
    requires o <= |c| && ValueAt(c, o, depth).Some?
    ensures Derived(c, o, f, ValueAt(c, o, depth))
    decreases |c| - o, 0
  {
    hide Derived, StringAt, NumberAt, ArrayAt, ObjectAt, StartsWith;
    if StartsWith(c, o, NULL_WORD) {
      f := FWord(NULL_WORD);
      WordShown(c, o, f, ValueAt(c, o, depth));
    } else if StartsWith(c, o, FALSE_WORD) {
      f := FWord(FALSE_WORD);
      WordShown(c, o, f, ValueAt(c, o, depth));
    } else if StartsWith(c, o, TRUE_WORD) {
      f := FWord(TRUE_WORD);
      WordShown(c, o, f, ValueAt(c, o, depth));
    } else if ByteIs(c, o, QUOTE) {
      var body := StringDerives(c, o);
      f := FString(body);
      LeafDerived(c, o, f, ValueAt(c, o, depth));
    } else if o < |c| && (c[o] == MINUS || IsDigit(c[o])) {
      var m := NumberDerives(c, o);
      f := FNumber(m);
      LeafDerived(c, o, f, ValueAt(c, o, depth));
    } else if ByteIs(c, o, OPEN_BRACKET) {
      f := ArrayDerives(c, o, depth);
    } else {
      f := ObjectDerives(c, o, depth);
    }
  }

  lemma WordShown(c: Str, o: nat, f: Form, r: Option<Parsed<Json>>)
    requires f.FWord? && StartsWith(c, o, f.word) && r.Some? && r.value.next == o + |f.word|
    requires (f.word == NULL_WORD && r.value.value.Null?) || (f.word == FALSE_WORD && r.value.value.False?)
      || (f.word == TRUE_WORD && r.value.value.True?)
    ensures Derived(c, o, f, r)
  {
    Grammar.TokensExactly(0);
  }

  lemma LeafDerived(c: Str, o: nat, f: Form, r: Option<Parsed<Json>>)
    requires r.Some? && Shows(f, r.value.value) && Occurs(c, o, FormText(f)) && r.value.next == o + |FormText(f)|
    ensures Derived(c, o, f, r)
  {
  }

  lemma OneByte(c: Str, o: nat, b: byte)
    requires ByteIs(c, o, b)
    ensures Occurs(c, o, [b])
  {
  }

  /** A byte between two texts, or behind one. */
  lemma ByteBetween(c: Str, o: nat, t: Str, b: byte, rest: Str)
    requires Occurs(c, o, t) && ByteIs(c, o + |t|, b)
    ensures Occurs(c, o, t + [b])
    ensures Occurs(c, o + |t| + 1, rest) ==> Occurs(c, o, t + ([b] + rest))
  {
    OneByte(c, o + |t|, b);
    hide Occurs, ByteIs;
    OccursSplit(c, o, t, [b]);
    OccursSplit(c, o + |t|, [b], rest);
    OccursSplit(c, o, t, [b] + rest);
  }

  /** Brackets or braces around white space. */
  lemma EmptyDerived(c: Str, o: nat, open: byte, p: nat, close: byte)
    requires ByteIs(c, o, open) && o + 1 <= p && ByteIs(c, p, close)
    ensures Occurs(c, o, [open] + c[o + 1..p] + [close])
  {
    var ws := c[o + 1..p];
    assert c[o..p + 1] == [open] + ws + [close];
  }

  lemma {:induction false} ArrayDerives(c: Str, o: nat, depth: nat) returns (f: Form)
    requires ByteIs(c, o, OPEN_BRACKET) && ArrayAt(c, o, depth).Some?
    ensures Derived(c, o, f, ArrayAt(c, o, depth))
    decreases |c| - o - 1, 3
  {
    hide ItemsAt, Skip, Occurs, LooseWs, SpotsText, SpotsShow;
    var p := Skip(c, o + 1);
    OneByte(c, o, OPEN_BRACKET);
    WsDerives(c, o + 1);
    var ws := c[o + 1..p];
    if ByteIs(c, p, CLOSE_BRACKET) {
      f := FEmptyArray(ws);
      EmptyDerived(c, o, OPEN_BRACKET, p, CLOSE_BRACKET);
    } else {
      var items := ItemsDerive(c, o + 1, p, depth + 1);
      f := FArray(items);
      OccursSplit(c, o, [OPEN_BRACKET], SpotsText(items));
    }
  }

  lemma WsJoined(c: Str, o: nat, p: nat)
    requires o <= p <= |c| && LooseWs(c[o..p])
    ensures LooseWs(c[o..Skip(c, p)]) && Occurs(c, o, c[o..Skip(c, p)])
  {
    WsDerives(c, p);
    hide Skip;
    var q := Skip(c, p);
    forall i | 0 <= i < q - o ensures c[o..q][i] <= 32 {
      if i < p - o {
        assert c[o..q][i] == c[o..p][i];
      } else {
        assert c[o..q][i] == c[p..q][i - (p - o)];
      }
    }
  }

  /** A value with the white space around it; of the white space before it, that from `o` to `p` is known. */
  lemma {:induction false} SpotDerives(c: Str, o: nat, p: nat, depth: nat) returns (s: Spot)
    requires o <= p <= |c| && LooseWs(c[o..p]) && ValueAt(c, Skip(c, p), depth).Some?
    ensures var r := ValueAt(c, Skip(c, p), depth).value;
      SpotShows(s, r.value) && Occurs(c, o, SpotText(s)) && Skip(c, r.next) == o + |SpotText(s)|
    decreases |c| - p, 1
  {
    hide ValueAt, Skip, Occurs, LooseWs, Shows, FormText;
    var q := Skip(c, p);
    var f := ValueDerives(c, q, depth);
    var r := ValueAt(c, q, depth).value;
    WsJoined(c, o, p);
    WsDerives(c, r.next);
    var e := Skip(c, r.next);
    s := Spot(c[o..q], f, c[r.next..e]);
    OccursSplit(c, o, c[o..q], FormText(f));
    OccursSplit(c, o, c[o..q] + FormText(f), c[r.next..e]);
  }

  lemma NoBlank(c: Str, o: nat)
    requires o <= |c|
    ensures LooseWs(c[o..o])
  {
  }

  lemma ItemsStep(c: Str, p: nat, depth: nat)
    requires p <= |c| && ItemsAt(c, p, depth).Some?
    ensures var first := ValueAt(c, Skip(c, p), depth);
      && first.Some?
      && var q := Skip(c, first.value.next); var r := ItemsAt(c, p, depth).value;
        (ByteIs(c, q, COMMA) && ItemsAt(c, q + 1, depth).Some?
         && var rest := ItemsAt(c, q + 1, depth).value;
           r.value == [first.value.value] + rest.value && r.next == rest.next)
        || (!ByteIs(c, q, COMMA) && ByteIs(c, q, CLOSE_BRACKET) && r == Parsed([first.value.value], q + 1))
  {
    hide ValueAt, Skip, ByteIs;
  }

  /** The elements from `p` on, of which the white space from `o` on is part. */
  lemma {:induction false} ItemsDerive(c: Str, o: nat, p: nat, depth: nat) returns (items: seq<Spot>)
    requires o <= p <= |c| && LooseWs(c[o..p]) && ItemsAt(c, p, depth).Some?
    ensures var r := ItemsAt(c, p, depth).value;
      items != [] && SpotsShow(items, r.value) && Occurs(c, o, SpotsText(items)) && r.next == o + |SpotsText(items)|
    decreases |c| - p, 2
  {
    hide *;
    ItemsStep(c, p, depth);
    var s := SpotDerives(c, o, p, depth);
    var first := ValueAt(c, Skip(c, p), depth).value;
    var q := Skip(c, first.next);
    if ByteIs(c, q, COMMA) {
      NoBlank(c, q + 1);
      var rest := ItemsDerive(c, q + 1, q + 1, depth);
      items := [s] + rest;
      ByteBetween(c, o, SpotText(s), COMMA, SpotsText(rest));
      SpotsMore(s, first.value, rest, ItemsAt(c, q + 1, depth).value.value);
    } else {
      items := [s];
      ByteBetween(c, o, SpotText(s), CLOSE_BRACKET, []);
      SpotsOne(s, first.value);
    }
  }

  lemma SpotsOne(s: Spot, v: Json)
    requires SpotShows(s, v)
    ensures SpotsShow([s], [v]) && SpotsText([s]) == SpotText(s) + [CLOSE_BRACKET]
  {
    hide SpotShows, SpotText;
  }

  lemma SpotsMore(s: Spot, v: Json, rest: seq<Spot>, values: seq<Json>)
    requires SpotShows(s, v) && rest != [] && SpotsShow(rest, values)
    ensures SpotsShow([s] + rest, [v] + values)
    ensures SpotsText([s] + rest) == SpotText(s) + ([COMMA] + SpotsText(rest))
  {
    hide SpotShows, SpotText;
    assert ([s] + rest)[1..] == rest && ([v] + values)[1..] == values;
  }

  // ----- objects -----

  lemma {:induction false} ObjectDerives(c: Str, o: nat, depth: nat) returns (f: Form)
    requires ByteIs(c, o, OPEN_BRACE) && ObjectAt(c, o, depth).Some?
    ensures Derived(c, o, f, ObjectAt(c, o, depth))
    decreases |c| - o - 1, 3
  {
    hide MembersAt, Skip, Occurs, LooseWs, LinesText, LinesShow;
    var p := Skip(c, o + 1);
    OneByte(c, o, OPEN_BRACE);
    WsDerives(c, o + 1);
    var ws := c[o + 1..p];
    if ByteIs(c, p, CLOSE_BRACE) {
      f := FEmptyObject(ws);
      EmptyDerived(c, o, OPEN_BRACE, p, CLOSE_BRACE);
    } else {
      var members := MembersDerive(c, o + 1, p, depth + 1);
      f := FObject(members);
      OccursSplit(c, o, [OPEN_BRACE], LinesText(members));
    }
  }

  /** A name with the white space around it, and the colon. */
  lemma NameDerives(c: Str, o: nat, p: nat) returns (before: Str, name: Str, behind: Str)
    requires o <= p <= |c| && LooseWs(c[o..p]) && NameAt(c, p).Some?
    ensures LooseWs(before) && LooseString(name) && LooseWs(behind)
    ensures var t := before + ([QUOTE] + name + [QUOTE]) + behind + [COLON];
      Occurs(c, o, t) && NameAt(c, p).value.next == o + |t|
  {
    hide StringAt, Skip, Occurs, LooseWs, LooseString;
    var q := Skip(c, p);
    WsJoined(c, o, p);
    name := StringDerives(c, q);
    var n := StringAt(c, q).value.next;
    WsDerives(c, n);
    var e := Skip(c, n);
    OneByte(c, e, COLON);
    before, behind := c[o..q], c[n..e];
    var quoted := [QUOTE] + name + [QUOTE];
    OccursSplit(c, o, before, quoted);
    OccursSplit(c, o, before + quoted, behind);
    OccursSplit(c, o, before + quoted + behind, [COLON]);
  }

  lemma MembersStep(c: Str, p: nat, depth: nat)
    requires p <= |c| && MembersAt(c, p, depth).Some?
    ensures NameAt(c, p).Some?
    ensures var name := NameAt(c, p).value; var value := ValueAt(c, Skip(c, name.next), depth);
      && value.Some?
      && var q := Skip(c, value.value.next); var r := MembersAt(c, p, depth).value;
        var m := Member(name.value, value.value.value);
        (ByteIs(c, q, COMMA) && MembersAt(c, q + 1, depth).Some?
         && var rest := MembersAt(c, q + 1, depth).value;
           r.value == [m] + rest.value && r.next == rest.next)
        || (!ByteIs(c, q, COMMA) && ByteIs(c, q, CLOSE_BRACE) && r == Parsed([m], q + 1))
  {
    hide ValueAt, Skip, ByteIs, NameAt;
  }

  /** One member, up to the byte behind it. */
  lemma {:induction false} LineDerives(c: Str, o: nat, p: nat, depth: nat) returns (l: Line)
    requires o <= p <= |c| && LooseWs(c[o..p]) && NameAt(c, p).Some?
    requires ValueAt(c, Skip(c, NameAt(c, p).value.next), depth).Some?
    ensures var name := NameAt(c, p).value; var r := ValueAt(c, Skip(c, name.next), depth).value;
      LineShows(l, Member(name.value, r.value)) && Occurs(c, o, LineText(l)) && Skip(c, r.next) == o + |LineText(l)|
    decreases |c| - p, 1
  {
    hide ValueAt, Skip, Occurs, LooseWs, LooseString, NameAt, SpotShows, SpotText;
    var before, name, behind := NameDerives(c, o, p);
    var x := NameAt(c, p).value.next;
    NoBlank(c, x);
    var s := SpotDerives(c, x, x, depth);
    l := Line(before, name, behind, s);
    OccursSplit(c, o, before + ([QUOTE] + name + [QUOTE]) + behind + [COLON], SpotText(s));
  }

  /** The members from `p` on, of which the white space from `o` on is part. */
  lemma {:induction false} MembersDerive(c: Str, o: nat, p: nat, depth: nat) returns (members: seq<Line>)
    requires o <= p <= |c| && LooseWs(c[o..p]) && MembersAt(c, p, depth).Some?
    ensures var r := MembersAt(c, p, depth).value;
      members != [] && LinesShow(members, r.value) && Occurs(c, o, LinesText(members))
      && r.next == o + |LinesText(members)|
    decreases |c| - p, 2
  {
    hide *;
    MembersStep(c, p, depth);
    var l := LineDerives(c, o, p, depth);
    var name := NameAt(c, p).value;
    var value := ValueAt(c, Skip(c, name.next), depth).value;
    var q := Skip(c, value.next);
    var m := Member(name.value, value.value);
    if ByteIs(c, q, COMMA) {
      NoBlank(c, q + 1);
      var rest := MembersDerive(c, q + 1, q + 1, depth);
      members := [l] + rest;
      ByteBetween(c, o, LineText(l), COMMA, LinesText(rest));
      LinesMore(l, m, rest, MembersAt(c, q + 1, depth).value.value);
    } else {
      members := [l];
      ByteBetween(c, o, LineText(l), CLOSE_BRACE, []);
      LinesOne(l, m);
    }
  }

  lemma LinesOne(l: Line, m: Member)
    requires LineShows(l, m)
    ensures LinesShow([l], [m]) && LinesText([l]) == LineText(l) + [CLOSE_BRACE]
  {
    hide LineShows, LineText;
  }

  lemma LinesMore(l: Line, m: Member, rest: seq<Line>, values: seq<Member>)
    requires LineShows(l, m) && rest != [] && LinesShow(rest, values)
    ensures LinesShow([l] + rest, [m] + values)
    ensures LinesText([l] + rest) == LineText(l) + ([COMMA] + LinesText(rest))
  {
    hide LineShows, LineText;
    assert ([l] + rest)[1..] == rest && ([m] + values)[1..] == values;
  }

  // ----- whole texts -----

  /** An accepted text is a derived value with white space around it, behind an optional byte order mark. */
  lemma TextDerives(text: Str)
    requires ParseText(text, true).Some?
    ensures exists mark: Str, s: Spot ::
      && (mark == [] || mark == [0xEF, 0xBB, 0xBF]) && text == mark + SpotText(s)
      && SpotShows(s, ParseText(text, true).value.value)
  {
    var c := text + [0];
    var n := BomLength(c);
    MarkIs(c);
    hide BomLength, ValueAt, Skip, SpotText, SpotShows, LooseWs, Occurs;
    NoBlank(c, n);
    var s := SpotDerives(c, n, n, 0);
    var r := ValueAt(c, Skip(c, n), 0).value;
    EndIsNul(text, r.next);
    OccursEnds(c, n, SpotText(s));
    assert text == c[..n] + SpotText(s);
  }

  /** White space is skipped up to a NUL only at the end of the buffer. */
  lemma EndIsNul(text: Str, o: nat)
    requires o <= |text| + 1 && ByteIs(text + [0], Skip(text + [0], o), 0)
    ensures Skip(text + [0], o) == |text|
  {
    hide SkipBlank;
  }

  lemma MarkIs(c: Str)
    ensures var n := BomLength(c); c[..n] == [] || c[..n] == [0xEF, 0xBB, 0xBF]
    ensures BomLength(c) <= |c|
  {
  }

  lemma OccursEnds(c: Str, n: nat, t: Str)
    requires Occurs(c, n, t) && n + |t| == |c| - 1
    ensures c[..|c| - 1] == c[..n] + t
  {
  }
}
