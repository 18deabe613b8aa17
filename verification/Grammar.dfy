/**
 The grammar of JSON texts, sections 2 to 7 of RFC 8259, and the parser's acceptance of every text it derives.
 A document is a derivation: it holds the white space, the form of each numeral and the escapes of each string,
 so that its text is one particular spelling of its value. Numerals have at most the 63 bytes the parser copies,
 strings no lone surrogate, and nesting is limited to 1000.
 */
module Grammar {
  import opened Prelude
  import opened Decimal
  import opened Json
  import Utf8
  import opened StringCodec
  import opened StringLaws
  import opened Parser
  import opened PrintText

  // ----- strings -----

  /** The letters of the short escapes, and the characters they stand for, by section 7 of RFC 8259. */
  const SHORT_LETTERS: Str := Ascii("\"\\/bfnrt")
  const SHORT_VALUES: Str := [0x22, 0x5C, 0x2F, 0x08, 0x0C, 0x0A, 0x0D, 0x09]

  /** The parser knows these short escapes and no others. */
  lemma ShortEscapesExactly(b: byte)
    ensures |SHORT_LETTERS| == |SHORT_VALUES| == 8
    ensures forall k | 0 <= k < 8 :: Simple(SHORT_LETTERS[k]) == Some(SHORT_VALUES[k])
    ensures Simple(b).Some? <==> b in SHORT_LETTERS
  {
    var letters := SHORT_LETTERS;
    assert letters == [34, 92, 47, 98, 102, 110, 114, 116];
  }

  type ShortIndex = k: int | 0 <= k < 8
  type CodeUnit = code: int | 0 <= code < 0x10000
  type Supplementary = code: int | 0x10000 <= code < 0x110000 witness 0x10000
  /** Which of four hexadecimal digits are in upper case. */
  type Cases = upper: seq<bool> | |upper| == 4 witness [false, false, false, false]

  /**
   One character of a string: a byte as it is, a short escape, or a code point as one Unicode escape or as a
   surrogate pair of two.
   */
  datatype Piece =
    | Plain(b: byte)
    | Short(k: ShortIndex)
    | Unicode(code: CodeUnit, upper: Cases)
    | Pair(point: Supplementary, high: Cases, low: Cases)

  predicate PieceOk(p: Piece) {
    match p
    case Plain(b) => b >= 32 && b != 0x22 && b != 0x5C
    case Unicode(code, _) => !(0xD800 <= code < 0xE000)
    case _ => true
  }

  function UnicodeText(code: CodeUnit, upper: Cases): (t: Str)
    ensures |t| == 6
  {
    Ascii("\\u") + HexText(code, upper)
  }

  function PieceText(p: Piece): (t: Str)
    ensures t != []
  {
    match p
    case Plain(b) => [b]
    case Short(k) => [0x5C, SHORT_LETTERS[k]]
    case Unicode(code, upper) => UnicodeText(code, upper)
    case Pair(point, high, low) =>
      UnicodeText(0xD800 + (point - 0x10000) / 0x400, high) + UnicodeText(0xDC00 + (point - 0x10000) % 0x400, low)
  }

  /** What a character is in UTF-8. */
  function PieceBytes(p: Piece): Str {
    match p
    case Plain(b) => [b]
    case Short(k) => [SHORT_VALUES[k]]
    case Unicode(code, _) => Utf8.Encoded(code)
    case Pair(point, _, _) => Utf8.Encoded(point)
  }

  predicate PiecesOk(s: seq<Piece>) {
    forall i | 0 <= i < |s| :: PieceOk(s[i])
  }

  function PiecesText(s: seq<Piece>): Str {
    if s == [] then [] else PieceText(s[0]) + PiecesText(s[1..])
  }

  function PiecesBytes(s: seq<Piece>): Str {
    if s == [] then [] else PieceBytes(s[0]) + PiecesBytes(s[1..])
  }

  function StringText(s: seq<Piece>): Str {
    [QUOTE] + PiecesText(s) + [QUOTE]
  }

  /** The C string that stands for a string; an escaped NUL ends it. */
  function StringValue(s: seq<Piece>): Str {
    CString(PiecesBytes(s))
  }

  lemma UnicodeRead(c: Str, p: nat, code: CodeUnit, upper: Cases)
    requires Occurs(c, p, UnicodeText(code, upper))
    ensures p + 6 <= |c| && c[p] == BACKSLASH && c[p + 1] == LETTER_U
    ensures Hex4(c, p + 2) == code && Scan(c, p) == Scan(c, p + 6)
  {
    hide Hex4, FourHex, Scan, HexText;
    var digits := HexText(code, upper);
    HexTextRead(code, upper);
    assert UnicodeText(code, upper) == [BACKSLASH, LETTER_U] + digits;
    OccursSplit(c, p, [BACKSLASH, LETTER_U], digits);
    OccursAt(c, p, [BACKSLASH, LETTER_U]);
    assert c[p + 0] == BACKSLASH && c[p + 1] == LETTER_U;
    OccursAt(c, p + 2, digits);
    forall j | 0 <= j < 4 ensures c[j + (p + 2)] == digits[j] {
      assert c[p + 2 + j] == digits[j];
    }
    HexCopied(digits, c, 0, p + 2);
    HexScan(c, p + 2);
    EscapeScanned(c, p);
  }

  lemma EscapeScanned(c: Str, p: nat)
    requires p + 2 <= |c| && c[p] == BACKSLASH
    ensures Scan(c, p) == Scan(c, p + 2)
  {
  }

  /** Both passes read a character as such. */
  lemma PieceRead(c: Str, p: nat, piece: Piece, end: nat)
    requires PieceOk(piece) && Occurs(c, p, PieceText(piece)) && p + |PieceText(piece)| <= end < |c|
    ensures Scan(c, p) == Scan(c, p + |PieceText(piece)|)
    ensures TokenAt(c, p, end) == Some(Token(PieceBytes(piece), |PieceText(piece)|))
  {
    hide Hex4, Scan, Utf8.Encoded, Occurs, TokenAt, UnicodeText, SHORT_LETTERS, SHORT_VALUES;
    match piece
    case Plain(b) => ByteRead(c, p, b, end);
    case Short(k) =>
      ShortEscapesExactly(0);
      LetterRead(c, p, SHORT_LETTERS[k], end);
    case Unicode(code, upper) =>
      UnicodeRead(c, p, code, upper);
      UnicodeToken(c, p, end);
    case Pair(point, high, low) => PairRead(c, p, point, high, low, end);
  }

  lemma PairRead(c: Str, p: nat, point: Supplementary, high: Cases, low: Cases, end: nat)
    requires Occurs(c, p, PieceText(Pair(point, high, low))) && p + 12 <= end < |c|
    ensures Scan(c, p) == Scan(c, p + 12)
    ensures TokenAt(c, p, end) == Some(Token(Utf8.Encoded(point), 12))
  {
    hide Occurs, Scan, TokenAt, Hex4, Utf8.Encoded, UnicodeText;
    var first, second := 0xD800 + (point - 0x10000) / 0x400, 0xDC00 + (point - 0x10000) % 0x400;
    OccursSplit(c, p, UnicodeText(first, high), UnicodeText(second, low));
    UnicodeRead(c, p, first, high);
    UnicodeRead(c, p + 6, second, low);
    UnicodeToken(c, p, end);
  }

  lemma ByteRead(c: Str, p: nat, b: byte, end: nat)
    requires b != QUOTE && b != BACKSLASH && Occurs(c, p, [b]) && p < end < |c|
    ensures Scan(c, p) == Scan(c, p + 1) && TokenAt(c, p, end) == Some(Token([b], 1))
  {
    NextByte(c, p, [b]);
  }

  lemma LetterRead(c: Str, p: nat, letter: byte, end: nat)
    requires Simple(letter).Some? && Occurs(c, p, [BACKSLASH, letter]) && p + 2 <= end < |c|
    ensures Scan(c, p) == Scan(c, p + 2) && TokenAt(c, p, end) == Some(Token([Simple(letter).value], 2))
  {
    OccursAt(c, p, [BACKSLASH, letter]);
    assert c[p + 0] == BACKSLASH && c[p + 1] == letter;
    EscapeScanned(c, p);
  }

  lemma UnicodeToken(c: Str, p: nat, end: nat)
    requires p + 6 <= end < |c| && c[p] == BACKSLASH && c[p + 1] == LETTER_U
    ensures var first := Hex4(c, p + 2);
      && (!Utf8.Surrogate(first) ==> TokenAt(c, p, end) == Some(Token(Utf8.Encoded(first), 6)))
      && (HighSurrogate(first) && p + 12 <= end && c[p + 6] == BACKSLASH && c[p + 7] == LETTER_U
          && LowSurrogate(Hex4(c, p + 8)) ==>
            var code := 0x10000 + (first - 0xD800) * 0x400 + (Hex4(c, p + 8) - 0xDC00);
            TokenAt(c, p, end) == Some(Token(Utf8.Encoded(code), 12)))
  {
    hide Hex4, Utf8.Encoded;
  }

  lemma {:induction false} PiecesRead(c: Str, p: nat, s: seq<Piece>)
    requires PiecesOk(s) && Occurs(c, p, PiecesText(s) + [QUOTE])
    ensures Scan(c, p) == Some(p + |PiecesText(s)|)
    ensures Decode(c, p, p + |PiecesText(s)|) == Some(PiecesBytes(s))
    decreases |s|
  {
    hide Occurs, Scan, Decode, PieceText, PieceBytes, PieceOk, TokenAt;
    if s == [] {
      assert PiecesText(s) + [QUOTE] == [QUOTE];
      LiteralEnds(c, p);
      DecodeEnd(c, p, p);
    } else {
      var t, rest := PieceText(s[0]), PiecesText(s[1..]);
      assert PiecesText(s) + [QUOTE] == t + (rest + [QUOTE]);
      OccursSplit(c, p, t, rest + [QUOTE]);
      PiecesRead(c, p + |t|, s[1..]);
      LiteralWithin(c, p + |t|);
      PieceRead(c, p, s[0], p + |t| + |rest|);
      DecodeStep(c, p, p + |t| + |rest|);
    }
  }

  lemma LiteralWithin(c: Str, p: nat)
    requires p <= |c| && Scan(c, p).Some?
    ensures Scan(c, p).value < |c|
  {
  }

  /** A string is read as its value. */
  lemma StringRead(c: Str, o: nat, s: seq<Piece>)
    requires PiecesOk(s) && Occurs(c, o, StringText(s))
    ensures StringAt(c, o) == Some(Parsed(StringValue(s), o + |StringText(s)|))
    ensures o < |c| && c[o] == QUOTE
  {
    hide Occurs, PiecesText, PiecesBytes, Scan, Decode;
    assert StringText(s) == [QUOTE] + (PiecesText(s) + [QUOTE]);
    OccursSplit(c, o, [QUOTE], PiecesText(s) + [QUOTE]);
    LiteralEnds(c, o);
    PiecesRead(c, o + 1, s);
  }

  // ----- numbers -----

  datatype Exponent = Exponent(letter: byte, sign: Str, digits: Str)

  datatype Numeral = Numeral(minus: bool, whole: Str, fraction: Option<Str>, exponent: Option<Exponent>)

  predicate NumeralOk(n: Numeral) {
    && AllDigits(n.whole) && (n.whole[0] == 48 ==> |n.whole| == 1)
    && (n.fraction.Some? ==> AllDigits(n.fraction.value))
    && (n.exponent.Some? ==>
          var e := n.exponent.value;
          && (e.letter == 101 || e.letter == 69) && (e.sign == [] || e.sign == [43] || e.sign == [MINUS])
          && AllDigits(e.digits))
    && |NumeralText(n)| <= 63
  }

  function SignText(n: Numeral): Str {
    if n.minus then [MINUS] else []
  }

  function FractionText(n: Numeral): Str {
    if n.fraction.None? then [] else [DOT] + n.fraction.value
  }

  function ExponentText(n: Numeral): Str {
    if n.exponent.None? then [] else [n.exponent.value.letter] + n.exponent.value.sign + n.exponent.value.digits
  }

  function NumeralText(n: Numeral): Str {
    SignText(n) + n.whole + FractionText(n) + ExponentText(n)
  }

  /** A numeral without fraction and exponent stands for an integer; an `int` is kept as such. */
  function NumeralValue(n: Numeral): Json {
    var i := if n.minus then -NumberOf(n.whole) else NumberOf(n.whole);
    if n.fraction.None? && n.exponent.None? && INT_MIN <= i <= INT_MAX then Number(i) else Real(NumeralText(n))
  }

  /** Where the parts of a numeral lie in its text, and what `strtod` looks at there. */
  ghost predicate Parted(t: Str, i: nat, j: nat, k: nat, fraction: bool, exponent: Option<nat>) {
    && i < j <= k <= |t| && i <= 1 && (i == 1 ==> t[0] == MINUS)
    && (forall x | i <= x < j :: IsDigit(t[x]))
    && (if fraction then j + 1 < k && t[j] == DOT && forall x | j + 1 <= x < k :: IsDigit(t[x]) else k == j)
    && match exponent
       case None => k == |t|
       case Some(s) =>
         && k + 1 <= s <= k + 2 && s < |t| && (t[k] == 101 || t[k] == 69)
         && (s == k + 2 ==> t[k + 1] == 43 || t[k + 1] == MINUS)
         && forall x | s <= x < |t| :: IsDigit(t[x])
  }

  function PlaceOfExponent(n: Numeral): Option<nat> {
    if n.exponent.None? then None
    else Some(|SignText(n)| + |n.whole| + |FractionText(n)| + 1 + |n.exponent.value.sign|)
  }

  /** What stands where in four texts one behind the other. */
  lemma FourParts(a: Str, b: Str, c: Str, d: Str, t: Str)
    requires t == a + b + c + d
    ensures var i, j, k := |a|, |a| + |b|, |a| + |b| + |c|;
      && |t| == k + |d| && t[i..j] == b && (a != [] ==> t[0] == a[0])
      && (forall x | i <= x < j :: t[x] == b[x - i]) && (forall x | j <= x < k :: t[x] == c[x - j])
      && (forall x | k <= x < |t| :: t[x] == d[x - k])
  {
  }

  lemma NumeralParted(n: Numeral)
    requires NumeralOk(n)
    ensures var i := |SignText(n)|;
      var j := i + |n.whole|;
      var k := j + |FractionText(n)|;
      && Parted(NumeralText(n), i, j, k, n.fraction.Some?, PlaceOfExponent(n))
      && NumeralText(n)[i..j] == n.whole && (i == 1 <==> n.minus)
  {
    var a, b, c, d := SignText(n), n.whole, FractionText(n), ExponentText(n);
    var t := NumeralText(n);
    FourParts(a, b, c, d, t);
    hide NumeralText;
    if n.exponent.Some? {
      ExponentParted(n.exponent.value, d);
    }
  }

  lemma ExponentParted(e: Exponent, d: Str)
    requires d == [e.letter] + e.sign + e.digits && AllDigits(e.digits)
    requires e.sign == [] || e.sign == [43] || e.sign == [MINUS]
    ensures |d| > 1 + |e.sign| && d[0] == e.letter && (|e.sign| == 1 ==> d[1] == e.sign[0])
    ensures forall x | 1 + |e.sign| <= x < |d| :: IsDigit(d[x])
  {
    forall x | 1 + |e.sign| <= x < |d| ensures IsDigit(d[x]) {
      assert d[x] == e.digits[x - 1 - |e.sign|];
    }
  }

  /** `strtod` takes all of such a text. */
  lemma PartedTaken(t: Str, i: nat, j: nat, k: nat, fraction: bool, exponent: Option<nat>)
    requires Parted(t, i, j, k, fraction, exponent)
    ensures StrtodLength(t) == |t|
    ensures forall x | 0 <= x < |t| :: NumberByte(t[x])
    ensures t[0] == MINUS || IsDigit(t[0])
  {
    hide DigitsEnd;
    DigitsRun(t, i, j);
    if fraction {
      DigitsRun(t, j + 1, k);
    }
    if exponent.Some? {
      DigitsRun(t, exponent.value, |t|);
    }
  }

  lemma NumeralTaken(n: Numeral)
    requires NumeralOk(n)
    ensures StrtodLength(NumeralText(n)) == |NumeralText(n)| > 0
    ensures forall x | 0 <= x < |NumeralText(n)| :: NumberByte(NumeralText(n)[x])
    ensures NumeralText(n)[0] == MINUS || IsDigit(NumeralText(n)[0])
  {
    NumeralParted(n);
    hide NumeralText, NumberByte, StrtodLength, NumeralOk;
    var i := |SignText(n)|;
    var j := i + |n.whole|;
    PartedTaken(NumeralText(n), i, j, j + |FractionText(n)|, n.fraction.Some?, PlaceOfExponent(n));
  }

  /** And its value is the item's. */
  lemma NumeralItem(n: Numeral)
    requires NumeralOk(n)
    ensures NumberItem(NumeralText(n)) == NumeralValue(n)
  {
    NumeralParted(n);
    var t, i := NumeralText(n), |SignText(n)|;
    var j := i + |n.whole|;
    if n.fraction.None? && n.exponent.None? {
      assert t == SignText(n) + n.whole;
      WholeItem(t, n.whole, n.minus);
    } else {
      hide NumeralText, NumberItem, NumberOf;
      assert 0 < j < |t| && !IsDigit(t[j]);
      OtherItem(t, j);
    }
  }

  lemma WholeItem(t: Str, whole: Str, minus: bool)
    requires AllDigits(whole) && t == (if minus then [MINUS] else []) + whole
    ensures var i := if minus then -NumberOf(whole) else NumberOf(whole);
      NumberItem(t) == if INT_MIN <= i <= INT_MAX then Number(i) else Real(t)
  {
    hide NumberOf;
    if minus {
      assert t[0] == MINUS && t[1..] == whole;
    } else {
      assert t == whole && IsDigit(whole[0]);
    }
  }

  lemma OtherItem(t: Str, j: nat)
    requires 0 < j < |t| && !IsDigit(t[j])
    ensures NumberItem(t) == Real(t)
  {
    if t[0] == MINUS {
      assert !AllDigits(t[1..]) by {
        assert t[1..][j - 1] == t[j];
      }
    } else {
      assert !AllDigits(t);
    }
  }

  lemma NumeralRead(c: Str, o: nat, n: Numeral)
    requires NumeralOk(n) && Occurs(c, o, NumeralText(n)) && NumberEnds(c, o + |NumeralText(n)|)
    ensures NumberAt(c, o) == Some(Parsed(NumeralValue(n), o + |NumeralText(n)|))
    ensures o < |c| && (c[o] == MINUS || IsDigit(c[o]))
  {
    hide NumeralText, NumeralValue, StrtodLength, NumberItem, NumberByte, NumberEnds, Occurs, NumeralOk, NumberAt;
    NumeralShort(n);
    NumeralTaken(n);
    NumeralItem(n);
    CopiedRead(c, o, NumeralText(n));
  }

  lemma NumeralShort(n: Numeral)
    requires NumeralOk(n)
    ensures |NumeralText(n)| <= 63
  {
    hide NumeralText;
  }

  lemma CopiedRead(c: Str, o: nat, t: Str)
    requires Occurs(c, o, t) && 0 < |t| <= 63 && NumberEnds(c, o + |t|)
    requires StrtodLength(t) == |t| && forall x | 0 <= x < |t| :: NumberByte(t[x])
    ensures NumberAt(c, o) == Some(Parsed(NumberItem(t), o + |t|)) && o < |c| && c[o] == t[0]
  {
    hide StrtodLength, NumberItem, NumberEnd, NumberByte, NumberEnds, Occurs;
    NumberCopied(c, o, t);
    OccursSlice(c, o, t);
    assert t[..|t|] == t;
  }

  // ----- documents -----

  /** White space. */
  predicate Ws(s: Str) {
    forall i | 0 <= i < |s| :: s[i] == 32 || s[i] == 9 || s[i] == 10 || s[i] == 13
  }

  datatype Doc =
    | DNull
    | DFalse
    | DTrue
    | DNumber(n: Numeral)
    | DString(s: seq<Piece>)
    | DEmptyArray(ws: Str)
    | DArray(items: seq<Slot>)
    | DEmptyObject(ws: Str)
    | DObject(members: seq<Entry>)

  /** A value with the white space around it. */
  datatype Slot = Slot(before: Str, doc: Doc, behind: Str)

  /** A member: its name with the white space around it, a colon, and its value. */
  datatype Entry = Entry(before: Str, key: seq<Piece>, behind: Str, slot: Slot)

  function DocText(d: Doc): Str
    decreases d, 2
  {
    match d
    case DNull => NULL_WORD
    case DFalse => FALSE_WORD
    case DTrue => TRUE_WORD
    case DNumber(n) => NumeralText(n)
    case DString(s) => StringText(s)
    case DEmptyArray(ws) => [OPEN_BRACKET] + (ws + [CLOSE_BRACKET])
    case DArray(items) => [OPEN_BRACKET] + SlotsText(items)
    case DEmptyObject(ws) => [OPEN_BRACE] + (ws + [CLOSE_BRACE])
    case DObject(members) => [OPEN_BRACE] + EntriesText(members)
  }

  function SlotText(s: Slot): Str
    decreases s, 3
  {
    s.before + DocText(s.doc) + s.behind
  }

  /** The elements and the closing bracket. */
  function SlotsText(items: seq<Slot>): Str
    decreases items, 0
  {
    if items == [] then [CLOSE_BRACKET]
    else SlotText(items[0]) + (if |items| == 1 then [CLOSE_BRACKET] else [COMMA] + SlotsText(items[1..]))
  }

  function EntryText(e: Entry): Str
    decreases e, 4
  {
    e.before + (StringText(e.key) + (e.behind + ([COLON] + SlotText(e.slot))))
  }

  /** The members and the closing brace. */
  function EntriesText(members: seq<Entry>): Str
    decreases members, 0
  {
    if members == [] then [CLOSE_BRACE]
    else EntryText(members[0]) + (if |members| == 1 then [CLOSE_BRACE] else [COMMA] + EntriesText(members[1..]))
  }

  predicate DocOk(d: Doc)
    decreases d, 2
  {
    match d
    case DNumber(n) => NumeralOk(n)
    case DString(s) => PiecesOk(s)
    case DEmptyArray(ws) => Ws(ws)
    case DArray(items) => items != [] && SlotsOk(items)
    case DEmptyObject(ws) => Ws(ws)
    case DObject(members) => members != [] && EntriesOk(members)
    case _ => true
  }

  predicate SlotOk(s: Slot) {
    Ws(s.before) && DocOk(s.doc) && Ws(s.behind)
  }

  predicate SlotsOk(items: seq<Slot>)
    decreases items, 0
  {
    items != [] ==>
      Ws(items[0].before) && DocOk(items[0].doc) && Ws(items[0].behind) && SlotsOk(items[1..])
  }

  predicate EntriesOk(members: seq<Entry>)
    decreases members, 0
  {
    members != [] ==>
      var e := members[0];
      && Ws(e.before) && PiecesOk(e.key) && Ws(e.behind)
      && Ws(e.slot.before) && DocOk(e.slot.doc) && Ws(e.slot.behind) && EntriesOk(members[1..])
  }

  /** The value a document stands for. */
  function DocValue(d: Doc): Json
    requires DocOk(d)
    decreases d, 2
  {
    match d
    case DNull => Null
    case DFalse => False
    case DTrue => True
    case DNumber(n) => NumeralValue(n)
    case DString(s) => String(StringValue(s))
    case DEmptyArray(_) => Array([])
    case DArray(items) => Array(SlotsValue(items))
    case DEmptyObject(_) => Object([])
    case DObject(members) => Object(EntriesValue(members))
  }

  function SlotsValue(items: seq<Slot>): (r: seq<Json>)
    requires SlotsOk(items)
    ensures |r| == |items|
    decreases items, 0
  {
    if items == [] then [] else [DocValue(items[0].doc)] + SlotsValue(items[1..])
  }

  function EntriesValue(members: seq<Entry>): (r: seq<Member>)
    requires EntriesOk(members)
    ensures |r| == |members|
    decreases members, 0
  {
    if members == [] then []
    else [Member(StringValue(members[0].key), DocValue(members[0].slot.doc))] + EntriesValue(members[1..])
  }

  /** How deeply arrays and objects are nested. */
  function Levels(d: Doc): nat
    decreases d, 2
  {
    match d
    case DEmptyArray(_) => 1
    case DArray(items) => 1 + LevelsOfSlots(items)
    case DEmptyObject(_) => 1
    case DObject(members) => 1 + LevelsOfEntries(members)
    case _ => 0
  }

  function LevelsOfSlots(items: seq<Slot>): nat
    decreases items, 0
  {
    if items == [] then 0
    else
      var a, b := Levels(items[0].doc), LevelsOfSlots(items[1..]);
      if a < b then b else a
  }

  function LevelsOfEntries(members: seq<Entry>): nat
    decreases members, 0
  {
    if members == [] then 0
    else
      var a, b := Levels(members[0].slot.doc), LevelsOfEntries(members[1..]);
      if a < b then b else a
  }

  /** The tokens the parser looks for are those of sections 2 and 3 of RFC 8259, and its digits the ten. */
  lemma TokensExactly(b: byte)
    ensures [OPEN_BRACKET, CLOSE_BRACKET, OPEN_BRACE, CLOSE_BRACE, COLON, COMMA] == Ascii("[]{}:,")
    ensures [QUOTE, BACKSLASH, LETTER_U, MINUS, DOT] == Ascii("\"\\u-.")
    ensures NULL_WORD == Ascii("null") && FALSE_WORD == Ascii("false") && TRUE_WORD == Ascii("true")
    ensures IsDigit(b) <==> b in Ascii("0123456789")
  {
    var digits := Ascii("0123456789");
    assert digits == [48, 49, 50, 51, 52, 53, 54, 55, 56, 57];
  }

  // ----- every text of the grammar is accepted -----

  lemma DocStarts(d: Doc)
    requires DocOk(d)
    ensures DocText(d) != [] && Starts(DocText(d)[0])
  {
    if d.DNumber? {
      NumeralTaken(d.n);
    }
  }

  lemma WsBlank(s: Str)
    requires Ws(s)
    ensures forall i | 0 <= i < |s| :: s[i] <= 32
  {
  }

  /** White space is skipped up to a visible byte. */
  lemma WsSkipped(c: Str, o: nat, ws: Str)
    requires Ws(ws) && Occurs(c, o, ws) && o + |ws| < |c| && c[o + |ws|] > 32
    ensures Skip(c, o) == o + |ws|
    ensures !NumberByte(c[o + |ws|]) ==> NumberEnds(c, o)
  {
    WsBlank(ws);
    SkipsPiece(c, o, ws);
    if ws != [] {
      NextByte(c, o, ws);
    }
  }

  /** A document is parsed to its value, and the parse ends right behind it. */
  lemma {:induction false} DocRead(c: Str, o: nat, d: Doc, depth: nat)
    requires DocOk(d) && depth + Levels(d) <= NESTING_LIMIT
    requires Occurs(c, o, DocText(d)) && NumberEnds(c, o + |DocText(d)|)
    ensures ValueAt(c, o, depth) == Some(Parsed(DocValue(d), o + |DocText(d)|))
    decreases d, 2
  {
    hide Occurs, ValueAt, ArrayAt, ObjectAt, SlotsText, EntriesText, SlotsOk, EntriesOk, SlotsValue, EntriesValue,
      NumeralText, NumeralValue, NumeralOk, StringText, StringValue, PiecesOk, NumberAt, StringAt, Ws;
    match d
    case DNull => WordRead(c, o, d, depth);
    case DFalse => WordRead(c, o, d, depth);
    case DTrue => WordRead(c, o, d, depth);
    case DNumber(n) =>
      NumeralRead(c, o, n);
      ListStarts(c, o, depth);
    case DString(s) =>
      StringRead(c, o, s);
      ListStarts(c, o, depth);
    case DEmptyArray(ws) =>
      NextByte(c, o, DocText(d));
      ListStarts(c, o, depth);
      EmptyRead(c, o, ws, CLOSE_BRACKET, OPEN_BRACKET, depth);
    case DArray(items) =>
      NextByte(c, o, DocText(d));
      ListStarts(c, o, depth);
      OccursSplit(c, o, [OPEN_BRACKET], SlotsText(items));
      ArrayRead(c, o, items, depth);
    case DEmptyObject(ws) =>
      NextByte(c, o, DocText(d));
      ListStarts(c, o, depth);
      EmptyRead(c, o, ws, CLOSE_BRACE, OPEN_BRACE, depth);
    case DObject(members) =>
      NextByte(c, o, DocText(d));
      ListStarts(c, o, depth);
      OccursSplit(c, o, [OPEN_BRACE], EntriesText(members));
      ObjectRead(c, o, members, depth);
  }

  lemma WordRead(c: Str, o: nat, d: Doc, depth: nat)
    requires (d.DNull? || d.DFalse? || d.DTrue?) && Occurs(c, o, DocText(d))
    ensures ValueAt(c, o, depth) == Some(Parsed(DocValue(d), o + |DocText(d)|))
  {
    OccursSlice(c, o, DocText(d));
    hide Occurs, ArrayAt, ObjectAt, NumberAt, StringAt;
    WordStarts(c, o, NULL_WORD);
    WordStarts(c, o, FALSE_WORD);
    WordStarts(c, o, TRUE_WORD);
  }

  /** An empty array or object. */
  lemma EmptyRead(c: Str, o: nat, ws: Str, b: byte, open: byte, depth: nat)
    requires Ws(ws) && Occurs(c, o, [open] + (ws + [b])) && b > 32 && depth < NESTING_LIMIT
    requires (open == OPEN_BRACKET && b == CLOSE_BRACKET) || (open == OPEN_BRACE && b == CLOSE_BRACE)
    ensures ByteIs(c, o, open)
    ensures open == OPEN_BRACKET ==> ArrayAt(c, o, depth) == Some(Parsed(Array([]), o + |ws| + 2))
    ensures open == OPEN_BRACE ==> ObjectAt(c, o, depth) == Some(Parsed(Object([]), o + |ws| + 2))
  {
    hide Occurs, Skip, ItemsAt, MembersAt, Ws;
    NextByte(c, o, [open] + (ws + [b]));
    OccursSplit(c, o, [open], ws + [b]);
    OccursSplit(c, o + 1, ws, [b]);
    NextByte(c, o + 1 + |ws|, [b]);
    WsSkipped(c, o + 1, ws);
  }

  lemma {:induction false} ArrayRead(c: Str, o: nat, items: seq<Slot>, depth: nat)
    requires items != [] && SlotsOk(items) && depth + 1 + LevelsOfSlots(items) <= NESTING_LIMIT
    requires ByteIs(c, o, OPEN_BRACKET) && Occurs(c, o + 1, SlotsText(items))
    ensures ArrayAt(c, o, depth) == Some(Parsed(Array(SlotsValue(items)), o + 1 + |SlotsText(items)|))
    decreases items, 1
  {
    hide Occurs, Skip, ItemsAt, SlotsText, SlotsValue, SlotsOk;
    SlotFound(c, o + 1, items);
    SkipTwice(c, o + 1);
    SlotsRead(c, o + 1, Skip(c, o + 1), items, depth + 1);
  }

  /** Behind the white space before it the first element starts. */
  lemma SlotFound(c: Str, p: nat, items: seq<Slot>)
    requires items != [] && SlotsOk(items) && Occurs(c, p, SlotsText(items))
    ensures p <= |c| && Skip(c, p) < |c| && c[Skip(c, p)] != CLOSE_BRACKET
  {
    hide Occurs, Skip, DocOk, DocText, Ws;
    var s := items[0];
    var more := if |items| == 1 then [CLOSE_BRACKET] else [COMMA] + SlotsText(items[1..]);
    assert SlotsText(items) == s.before + (DocText(s.doc) + (s.behind + more));
    OccursSplit(c, p, s.before, DocText(s.doc) + (s.behind + more));
    DocStarts(s.doc);
    NextByte(c, p + |s.before|, DocText(s.doc) + (s.behind + more));
    WsSkipped(c, p, s.before);
  }

  /** A value with white space around it, up to the visible byte behind it. */
  lemma {:induction false} SlotRead(c: Str, p: nat, s: Slot, depth: nat)
    requires SlotOk(s) && depth + Levels(s.doc) <= NESTING_LIMIT && Occurs(c, p, SlotText(s))
    requires var e := p + |SlotText(s)|; e < |c| && c[e] > 32 && !NumberByte(c[e])
    ensures p <= |c| && Skip(c, p) == p + |s.before|
    ensures var r := p + |s.before| + |DocText(s.doc)|;
      && ValueAt(c, p + |s.before|, depth) == Some(Parsed(DocValue(s.doc), r))
      && Skip(c, r) == p + |SlotText(s)|
    decreases s, 3
  {
    hide Occurs, Skip, DocOk, DocText, DocValue, ValueAt, Levels, Ws, NumberByte, NumberEnds;
    assert SlotText(s) == s.before + (DocText(s.doc) + s.behind);
    OccursSplit(c, p, s.before, DocText(s.doc) + s.behind);
    var q := p + |s.before|;
    OccursSplit(c, q, DocText(s.doc), s.behind);
    var r := q + |DocText(s.doc)|;
    DocStarts(s.doc);
    NextByte(c, q, DocText(s.doc));
    WsSkipped(c, p, s.before);
    WsSkipped(c, r, s.behind);
    DocRead(c, q, s.doc, depth);
  }

  lemma {:induction false} SlotsRead(c: Str, p: nat, q: nat, items: seq<Slot>, depth: nat)
    requires items != [] && SlotsOk(items) && depth + LevelsOfSlots(items) <= NESTING_LIMIT
    requires Occurs(c, p, SlotsText(items)) && p <= |c| && q <= |c| && Skip(c, q) == Skip(c, p)
    ensures ItemsAt(c, q, depth) == Some(Parsed(SlotsValue(items), p + |SlotsText(items)|))
    decreases items, 0
  {
    hide Occurs, Skip, SlotText, SlotsText, DocValue, DocText, ValueAt, Levels, DocOk, Ws;
    var s := items[0];
    var e := p + |SlotText(s)|;
    SlotsPieces(c, p, items);
    SlotRead(c, p, s, depth);
    if |items| > 1 {
      SlotsRead(c, e + 1, e + 1, items[1..], depth);
    } else {
      assert SlotsValue(items) == [DocValue(s.doc)];
    }
    SlotsAssembled(c, q, items, depth, DocValue(s.doc), p + |s.before| + |DocText(s.doc)|, e);
  }

  lemma SlotsPieces(c: Str, p: nat, items: seq<Slot>)
    requires items != [] && SlotsOk(items) && Occurs(c, p, SlotsText(items))
    ensures var s := items[0]; var e := p + |SlotText(s)|;
      && SlotOk(s) && SlotsOk(items[1..]) && Occurs(c, p, SlotText(s)) && e < |c|
      && c[e] > 32 && !NumberByte(c[e])
      && (|items| == 1 ==> c[e] == CLOSE_BRACKET && |SlotsText(items)| == |SlotText(s)| + 1)
      && (|items| > 1 ==>
            && c[e] == COMMA && Occurs(c, e + 1, SlotsText(items[1..]))
            && |SlotsText(items)| == |SlotText(s)| + 1 + |SlotsText(items[1..])|)
  {
    hide Occurs, SlotText, DocOk, Ws;
    var s := items[0];
    var more := if |items| == 1 then [CLOSE_BRACKET] else [COMMA] + SlotsText(items[1..]);
    OccursSplit(c, p, SlotText(s), more);
    NextByte(c, p + |SlotText(s)|, more);
    if |items| > 1 {
      OccursSplit(c, p + |SlotText(s)|, [COMMA], SlotsText(items[1..]));
    }
  }

  lemma SlotsAssembled(c: Str, q: nat, items: seq<Slot>, depth: nat, v: Json, r: nat, e: nat)
    requires items != [] && SlotsOk(items) && q <= |c| && v == DocValue(items[0].doc)
    requires ValueAt(c, Skip(c, q), depth) == Some(Parsed(v, r)) && Skip(c, r) == e < |c|
    requires |items| == 1 ==> c[e] == CLOSE_BRACKET
    requires |items| > 1 ==>
      && c[e] == COMMA && ItemsAt(c, e + 1, depth).Some?
      && ItemsAt(c, e + 1, depth).value.value == SlotsValue(items[1..])
    ensures ItemsAt(c, q, depth)
         == Some(Parsed(SlotsValue(items), if |items| == 1 then e + 1 else ItemsAt(c, e + 1, depth).value.next))
  {
    hide ValueAt, Skip, DocValue, DocOk, Ws;
    assert |items| == 1 ==> items[1..] == [] && SlotsValue(items) == [v];
  }

  // ----- objects -----

  lemma {:induction false} ObjectRead(c: Str, o: nat, members: seq<Entry>, depth: nat)
    requires members != [] && EntriesOk(members) && depth + 1 + LevelsOfEntries(members) <= NESTING_LIMIT
    requires ByteIs(c, o, OPEN_BRACE) && Occurs(c, o + 1, EntriesText(members))
    ensures ObjectAt(c, o, depth) == Some(Parsed(Object(EntriesValue(members)), o + 1 + |EntriesText(members)|))
    decreases members, 1
  {
    hide Occurs, Skip, MembersAt, EntriesText, EntriesValue, EntriesOk;
    EntryFound(c, o + 1, members);
    SkipTwice(c, o + 1);
    EntriesRead(c, o + 1, Skip(c, o + 1), members, depth + 1);
  }

  /** A name, with its quote behind the white space, and the colon. */
  lemma EntryFound(c: Str, p: nat, members: seq<Entry>)
    requires members != [] && EntriesOk(members) && Occurs(c, p, EntriesText(members))
    ensures p <= |c| && Skip(c, p) < |c| && c[Skip(c, p)] == QUOTE
  {
    hide Occurs, Skip, DocOk, SlotText, Ws, PiecesOk;
    EntriesPieces(c, p, members);
    var e := members[0];
    NameRead(c, p, e);
  }

  lemma EntriesPieces(c: Str, p: nat, members: seq<Entry>)
    requires members != [] && EntriesOk(members) && Occurs(c, p, EntriesText(members))
    ensures var s := members[0]; var e := p + |EntryText(s)|;
      && Ws(s.before) && PiecesOk(s.key) && Ws(s.behind) && SlotOk(s.slot) && EntriesOk(members[1..])
      && Occurs(c, p, EntryText(s)) && e < |c| && c[e] > 32 && !NumberByte(c[e])
      && (|members| == 1 ==> c[e] == CLOSE_BRACE && |EntriesText(members)| == |EntryText(s)| + 1)
      && (|members| > 1 ==>
            && c[e] == COMMA && Occurs(c, e + 1, EntriesText(members[1..]))
            && |EntriesText(members)| == |EntryText(s)| + 1 + |EntriesText(members[1..])|)
  {
    hide Occurs, EntryText, DocOk, Ws, PiecesOk;
    var s := members[0];
    var more := if |members| == 1 then [CLOSE_BRACE] else [COMMA] + EntriesText(members[1..]);
    OccursSplit(c, p, EntryText(s), more);
    NextByte(c, p + |EntryText(s)|, more);
    if |members| > 1 {
      OccursSplit(c, p + |EntryText(s)|, [COMMA], EntriesText(members[1..]));
    }
  }

  /** Where the colon of a member stands. */
  function ColonOf(p: nat, e: Entry): nat {
    p + |e.before| + |StringText(e.key)| + |e.behind|
  }

  lemma NameRead(c: Str, p: nat, e: Entry)
    requires Ws(e.before) && PiecesOk(e.key) && Ws(e.behind) && Occurs(c, p, EntryText(e))
    ensures p <= |c| && Skip(c, p) == p + |e.before| < |c| && c[p + |e.before|] == QUOTE
    ensures NameAt(c, p) == Some(Parsed(StringValue(e.key), ColonOf(p, e) + 1))
    ensures Occurs(c, ColonOf(p, e) + 1, SlotText(e.slot))
    ensures |EntryText(e)| == ColonOf(0, e) + 1 + |SlotText(e.slot)|
  {
    hide Occurs, Skip, StringAt, StringText, StringValue, SlotText, Ws, PiecesOk;
    var name, rest := StringText(e.key), [COLON] + SlotText(e.slot);
    OccursSplit(c, p, e.before, name + (e.behind + rest));
    var q := p + |e.before|;
    OccursSplit(c, q, name, e.behind + rest);
    var r := q + |name|;
    OccursSplit(c, r, e.behind, rest);
    OccursSplit(c, r + |e.behind|, [COLON], SlotText(e.slot));
    StringRead(c, q, e.key);
    NextByte(c, r + |e.behind|, [COLON]);
    WsSkipped(c, p, e.before);
    WsSkipped(c, r, e.behind);
  }

  lemma {:induction false} EntriesRead(c: Str, p: nat, q: nat, members: seq<Entry>, depth: nat)
    requires members != [] && EntriesOk(members) && depth + LevelsOfEntries(members) <= NESTING_LIMIT
    requires Occurs(c, p, EntriesText(members)) && p <= |c| && q < |c| && Skip(c, q) == Skip(c, p)
    ensures MembersAt(c, q, depth) == Some(Parsed(EntriesValue(members), p + |EntriesText(members)|))
    decreases members, 0
  {
    hide Occurs, Skip, SlotText, EntryText, EntriesText, DocValue, DocText, StringValue, StringText, ValueAt, NameAt,
      Levels, DocOk, Ws, PiecesOk, MembersAt;
    var s := members[0];
    var e := p + |EntryText(s)|;
    EntriesPieces(c, p, members);
    NameRead(c, p, s);
    SameName(c, p, q);
    var x := ColonOf(p, s) + 1;
    SlotRead(c, x, s.slot, depth);
    if |members| > 1 {
      EntriesWithin(c, e + 1, members[1..]);
      EntriesRead(c, e + 1, e + 1, members[1..], depth);
    } else {
      assert members[1..] == [] && EntriesValue(members[1..]) == [];
    }
    EntriesAssembled(c, q, members, depth, x, x + |s.slot.before| + |DocText(s.slot.doc)|, e);
  }

  lemma EntriesWithin(c: Str, p: nat, members: seq<Entry>)
    requires Occurs(c, p, EntriesText(members)) && members != []
    ensures p < |c|
  {
    OccursSlice(c, p, EntriesText(members));
  }

  lemma SameName(c: Str, p: nat, q: nat)
    requires p < |c| && q < |c| && Skip(c, p) == Skip(c, q)
    ensures NameAt(c, p) == NameAt(c, q)
  {
    hide Skip, StringAt;
  }

  lemma EntriesAssembled(c: Str, q: nat, members: seq<Entry>, depth: nat, x: nat, r: nat, e: nat)
    requires members != [] && EntriesOk(members) && q <= |c| && x <= |c|
    requires NameAt(c, q) == Some(Parsed(StringValue(members[0].key), x))
    requires ValueAt(c, Skip(c, x), depth) == Some(Parsed(DocValue(members[0].slot.doc), r)) && Skip(c, r) == e < |c|
    requires |members| == 1 ==> c[e] == CLOSE_BRACE
    requires |members| > 1 ==>
      && c[e] == COMMA && MembersAt(c, e + 1, depth).Some?
      && MembersAt(c, e + 1, depth).value.value == EntriesValue(members[1..])
    ensures MembersAt(c, q, depth)
         == Some(Parsed(EntriesValue(members),
                        if |members| == 1 then e + 1 else MembersAt(c, e + 1, depth).value.next))
  {
    hide ValueAt, NameAt, Skip, DocValue, StringValue, DocOk, Ws, PiecesOk;
    var m := Member(StringValue(members[0].key), DocValue(members[0].slot.doc));
    assert |members| == 1 ==> members[1..] == [] && EntriesValue(members) == [m];
  }

  // ----- the whole text -----

  /** Every text of the grammar is accepted as a whole, with the value it stands for. */
  lemma TextAccepted(s: Slot)
    requires SlotOk(s) && Levels(s.doc) <= 1000
    ensures ParseText(SlotText(s), true) == Some(Parsed(DocValue(s.doc), |SlotText(s)|))
  {
    hide DocOk, DocText, DocValue, ValueAt, Levels, Occurs;
    var t := SlotText(s);
    var c := t + [0];
    var q := |s.before|;
    var r := q + |DocText(s.doc)|;
    assert c == s.before + (DocText(s.doc) + (s.behind + [0]));
    WholeOccurs(c);
    OccursSplit(c, 0, s.before, DocText(s.doc) + (s.behind + [0]));
    OccursSplit(c, q, DocText(s.doc), s.behind + [0]);
    OccursSplit(c, r, s.behind, [0]);
    DocStarts(s.doc);
    NextByte(c, q, DocText(s.doc));
    WsSkipped(c, 0, s.before);
    TextEnds(c, r, s.behind);
    DocRead(c, q, s.doc, 0);
    NoMarkBefore(c, s, q);
  }

  lemma WholeOccurs(c: Str)
    ensures Occurs(c, 0, c)
  {
    assert c[0..|c|] == c;
  }

  lemma {:induction false} TextEnds(c: Str, r: nat, ws: Str)
    requires Ws(ws) && Occurs(c, r, ws + [0]) && |c| == r + |ws| + 1
    ensures NumberEnds(c, r) && Skip(c, r) == |c| - 1 && c[|c| - 1] == 0
  {
    OccursAt(c, r, ws + [0]);
    assert c[r + |ws|] == (ws + [0])[|ws|];
    forall k | r <= k < |c| ensures c[k] <= 32 {
      assert c[r + (k - r)] == (ws + [0])[k - r];
    }
    AllBlank(c, r);
  }

  lemma {:induction false} AllBlank(c: Str, r: nat)
    requires r <= |c| && forall k | r <= k < |c| :: c[k] <= 32
    ensures SkipBlank(c, r) == |c|
    decreases |c| - r
  {
    if r < |c| {
      AllBlank(c, r + 1);
    }
  }

  lemma NoMarkBefore(c: Str, s: Slot, q: nat)
    requires Ws(s.before) && q == |s.before| < |c| && Occurs(c, 0, s.before)
    requires DocText(s.doc) != [] && c[q] == DocText(s.doc)[0] && DocOk(s.doc)
    ensures BomLength(c) == 0
  {
    if q > 0 {
      NextByte(c, 0, s.before);
    } else if s.doc.DNumber? {
      NumeralTaken(s.doc.n);
    }
  }
}
