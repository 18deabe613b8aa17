/** What is printed is a document of RFC 8259's grammar, laid out with one member a line. */
module Layout {
  import opened Prelude
  import opened Decimal
  import opened Json
  import Utf8
  import opened StringCodec
  import opened StringLaws
  import opened Parser
  import opened PrintText
  import opened Grammar

  // ----- strings -----

  const LOWER: Cases := [false, false, false, false]

  /** The piece a byte is printed as: with a short escape where there is one, but the slash as it is. */
  function PieceOf(b: byte): (p: Piece) {
    if b == 0x22 then Short(0)
    else if b == 0x5C then Short(1)
    else if b == 0x08 then Short(3)
    else if b == 0x0C then Short(4)
    else if b == 0x0A then Short(5)
    else if b == 0x0D then Short(6)
    else if b == 0x09 then Short(7)
    else if b < 0x20 then Unicode(b, LOWER)
    else Plain(b)
  }

  function PiecesOf(s: Str): (p: seq<Piece>)
    ensures |p| == |s|
  {
    seq(|s|, i requires 0 <= i < |s| => PieceOf(s[i]))
  }

  lemma LowerDigit(d: nat)
    requires d < 16
    ensures DigitByte(d, false) == HexLetter(d)
  {
    DigitBytes();
    hide LOWER_DIGITS, UPPER_DIGITS;
  }

  lemma ControlLaid(b: byte)
    requires b < 0x20
    ensures UnicodeText(b, LOWER) == [BACKSLASH, LETTER_U, 48, 48, HexLetter(b / 16), HexLetter(b % 16)]
  {
    assert Ascii("\\u") == [BACKSLASH, LETTER_U];
    hide Ascii, DigitByte, HexLetter;
    assert HexLetter(0) == 48 by {
      ZeroLetter();
    }
    LowerDigit(0);
    LowerDigit(b / 16);
    LowerDigit(b % 16);
  }

  lemma ZeroLetter()
    ensures HexLetter(0) == 48
  {
  }

  lemma ControlBytes(b: byte)
    requires b < 0x20
    ensures Utf8.Encoded(b) == [b]
  {
  }

  lemma ShortLaid(k: ShortIndex, b: byte)
    requires b == SHORT_LETTERS[k]
    ensures PieceText(Short(k)) == [BACKSLASH, b]
  {
    hide SHORT_LETTERS;
  }

  lemma PieceLaid(b: byte)
    ensures PieceOk(PieceOf(b)) && PieceText(PieceOf(b)) == EscapedByte(b) && PieceBytes(PieceOf(b)) == [b]
  {
    assert SHORT_LETTERS == [34, 92, 47, 98, 102, 110, 114, 116];
    hide SHORT_LETTERS, UnicodeText, Utf8.Encoded;
    var p := PieceOf(b);
    if p.Short? {
      ShortLaid(p.k, SHORT_LETTERS[p.k]);
    } else if p.Unicode? {
      ControlLaid(b);
      ControlBytes(b);
    }
  }

  lemma {:induction false} StringLaid(s: Str)
    ensures PiecesOk(PiecesOf(s)) && PiecesText(PiecesOf(s)) == Escaped(s) && PiecesBytes(PiecesOf(s)) == s
  {
    hide PieceOk, PieceText, PieceBytes, PieceOf, EscapedByte;
    forall i | 0 <= i < |s| ensures PieceOk(PiecesOf(s)[i]) {
      PieceLaid(s[i]);
    }
    if s != [] {
      PieceLaid(s[0]);
      assert PiecesOf(s)[1..] == PiecesOf(s[1..]);
      StringLaid(s[1..]);
    }
  }

  // ----- trees -----

  /** A new line in formatted text, indented by `depth` tabs. */
  function NewLine(format: bool, depth: nat): Str {
    if format then Ascii("\n") + Tabs(depth) else []
  }

  /**
   How a tree is printed `depth` arrays and objects down. Formatted text has a new line with one more tab before
   each member and a new line before each closing brace, a tab behind each colon, and a space before each
   element but the first.
   */
  ghost function Laid(v: Json, format: bool, depth: nat): Doc
    requires Printable(v)
    decreases v, 1
  {
    match v
    case Null => DNull
    case False => DFalse
    case True => DTrue
    case Number(n) => DNumber(Numeral(n < 0, Digits(if n < 0 then -n else n), None, None))
    case String(s) => DString(PiecesOf(s))
    case Array(items) => if items == [] then DEmptyArray([]) else DArray(SlotsOf(items, format, depth + 1, []))
    case Object(members) =>
      if members == [] then DEmptyObject(NewLine(format, depth)) else DObject(EntriesOf(members, format, depth))
  }

  ghost function SlotsOf(items: seq<Json>, format: bool, depth: nat, gap: Str): (r: seq<Slot>)
    requires forall i | 0 <= i < |items| :: Printable(items[i])
    ensures |r| == |items|
    decreases items, 0
  {
    if items == [] then []
    else
      [Slot(gap, Laid(items[0], format, depth), [])]
      + SlotsOf(items[1..], format, depth, if format then Ascii(" ") else [])
  }

  ghost function EntriesOf(members: seq<Member>, format: bool, depth: nat): (r: seq<Entry>)
    requires PrintableMembers(members)
    ensures |r| == |members|
    decreases members, 0
  {
    if members == [] then []
    else
      var value := Slot(if format then Ascii("\t") else [], Laid(members[0].value, format, depth + 1),
        if |members| == 1 then NewLine(format, depth) else []);
      [Entry(NewLine(format, depth + 1), PiecesOf(members[0].key), [], value)]
      + EntriesOf(members[1..], format, depth)
  }

  /** A document is the printed text of a tree. */
  ghost predicate Prints(d: Doc, v: Json, format: bool, depth: nat) {
    DocOk(d) && DocText(d) == Text(v, format, depth) && DocValue(d) == v && Levels(d) == Nesting(v)
  }

  /** What is printed is the text of a document with the printed tree as its value. */
  lemma {:induction false} TextLaid(v: Json, format: bool, depth: nat)
    requires Printable(v)
    ensures Prints(Laid(v, format, depth), v, format, depth)
    decreases v, 1
  {
    hide Prints, Laid;
    match v
    case Array(items) => ArrayLaid(items, format, depth);
    case Object(members) => ObjectLaid(members, format, depth);
    case _ => ScalarLaid(v, format, depth);
  }

  lemma ScalarLaid(v: Json, format: bool, depth: nat)
    requires Printable(v) && !v.Array? && !v.Object?
    ensures Prints(Laid(v, format, depth), v, format, depth)
  {
    hide NumeralText, NumeralValue, NumeralOk, PiecesOk, StringText, StringValue, Quoted, IntText;
    match v
    case Number(n) => NumberLaid(n);
    case String(s) => KeyLaid(s);
    case _ =>
  }

  lemma {:induction false} ArrayLaid(items: seq<Json>, format: bool, depth: nat)
    requires Printable(Array(items))
    ensures Prints(Laid(Array(items), format, depth), Array(items), format, depth)
    decreases items, 1
  {
    EmptyLaid(format, depth);
    hide SlotsText, SlotsOk, SlotsValue, ItemsText, SlotsOf, Ws, LevelsOfSlots, NestingOfItems, MembersText, NewLine,
      Gap;
    if items != [] {
      ItemsLaid(items, format, depth, []);
      NothingBefore(ItemsText(items, format, depth));
    }
  }

  lemma NothingBefore(t: Str)
    ensures [] + t == t
  {
  }

  lemma {:induction false} ObjectLaid(members: seq<Member>, format: bool, depth: nat)
    requires Printable(Object(members))
    ensures Prints(Laid(Object(members), format, depth), Object(members), format, depth)
    decreases members, 1
  {
    hide EntriesText, EntriesOk, EntriesValue, MembersText, EntriesOf, Ws, NewLine;
    EmptyLaid(format, depth);
    if members != [] {
      MembersLaid(members, format, depth);
    }
  }

  lemma EmptyLaid(format: bool, depth: nat)
    ensures Ws([]) && ItemsText([], format, depth) == [] + [CLOSE_BRACKET]
    ensures Ws(NewLine(format, depth))
    ensures Gap(format) + MembersText([], format, depth) == NewLine(format, depth) + [CLOSE_BRACE]
    ensures NestingOfItems([]) == NestingOfMembers([]) == 0
  {
    NewLineWs(format, depth);
    hide NewLine;
  }

  lemma NewLineWs(format: bool, depth: nat)
    ensures Ws(NewLine(format, depth)) && NewLine(format, depth) == Gap(format) + Indent(format, depth)
  {
  }

  lemma NumberLaid(n: int)
    requires INT_MIN <= n <= INT_MAX
    ensures var d := DNumber(Numeral(n < 0, Digits(if n < 0 then -n else n), None, None));
      DocOk(d) && DocText(d) == IntText(n) && DocValue(d) == Number(n)
  {
    var m := if n < 0 then -n else n;
    DigitsExact(m);
    IntShort(n);
    DigitsAll(m);
    WholeLaid(n < 0, Digits(m));
    hide Digits, NumberOf, AllDigits, NumeralText;
  }

  lemma DigitsAll(m: nat)
    ensures AllDigits(Digits(m))
  {
    hide Digits;
  }

  lemma WholeLaid(minus: bool, whole: Str)
    ensures NumeralText(Numeral(minus, whole, None, None)) == (if minus then [MINUS] else []) + whole
  {
  }

  lemma SlotsStep(h: Slot, rest: seq<Slot>)
    requires SlotOk(h) && SlotsOk(rest)
    ensures var r := [h] + rest;
      && SlotsOk(r) && SlotsValue(r) == [DocValue(h.doc)] + SlotsValue(rest)
      && SlotsText(r) == SlotText(h) + (if rest == [] then [CLOSE_BRACKET] else [COMMA] + SlotsText(rest))
      && LevelsOfSlots(r) == if Levels(h.doc) < LevelsOfSlots(rest) then LevelsOfSlots(rest) else Levels(h.doc)
  {
    hide DocOk, DocText, DocValue, Levels, Ws, SlotText;
    assert ([h] + rest)[1..] == rest;
  }

  lemma {:induction false} ItemsLaid(items: seq<Json>, format: bool, depth: nat, gap: Str)
    requires items != [] && (forall i | 0 <= i < |items| :: Printable(items[i])) && Ws(gap)
    ensures var r := SlotsOf(items, format, depth + 1, gap);
      && SlotsOk(r) && SlotsText(r) == gap + ItemsText(items, format, depth) && SlotsValue(r) == items
      && LevelsOfSlots(r) == NestingOfItems(items)
    decreases items, 0
  {
    var next: Str := if format then Ascii(" ") else [];
    assert Ws(next) && Separator(true, format) == [COMMA] + next;
    hide Laid, DocOk, DocText, DocValue, Text, Levels, Nesting, Ws, SlotsText, SlotsOk, SlotsValue,
      LevelsOfSlots, SlotText, ItemsText, Separator;
    var h, rest := Slot(gap, Laid(items[0], format, depth + 1), []), SlotsOf(items[1..], format, depth + 1, next);
    TextLaid(items[0], format, depth + 1);
    NoWs();
    if |items| > 1 {
      ItemsLaid(items[1..], format, depth, next);
    } else {
      NoSlots();
    }
    SlotsStep(h, rest);
    SlotLaid(items, format, depth, h, next);
  }

  lemma SlotLaid(items: seq<Json>, format: bool, depth: nat, h: Slot, next: Str)
    requires Separator(true, format) == [COMMA] + next && items != [] && h.behind == []
    requires DocText(h.doc) == Text(items[0], format, depth + 1)
    ensures var rest := ItemsText(items[1..], format, depth);
      h.before + ItemsText(items, format, depth)
      == SlotText(h) + if |items| == 1 then [CLOSE_BRACKET] else [COMMA] + (next + rest)
  {
    hide Text, DocText, Separator;
    NoSeparator(format);
    if |items| > 1 {
      assert [COMMA] + next + ItemsText(items[1..], format, depth)
          == [COMMA] + (next + ItemsText(items[1..], format, depth));
    }
  }

  lemma NoSeparator(format: bool)
    ensures Separator(false, format) == []
  {
  }

  lemma NoWs()
    ensures Ws([])
  {
  }

  lemma NoSlots()
    ensures SlotsOk([]) && SlotsValue([]) == [] && LevelsOfSlots([]) == 0
  {
  }

  lemma EntriesStep(h: Entry, rest: seq<Entry>)
    requires Ws(h.before) && PiecesOk(h.key) && Ws(h.behind) && SlotOk(h.slot) && EntriesOk(rest)
    ensures var r := [h] + rest; var m := Member(StringValue(h.key), DocValue(h.slot.doc));
      && EntriesOk(r) && EntriesValue(r) == [m] + EntriesValue(rest)
      && EntriesText(r) == EntryText(h) + (if rest == [] then [CLOSE_BRACE] else [COMMA] + EntriesText(rest))
      && LevelsOfEntries(r)
         == if Levels(h.slot.doc) < LevelsOfEntries(rest) then LevelsOfEntries(rest) else Levels(h.slot.doc)
  {
    hide DocOk, DocText, DocValue, Levels, Ws, EntryText, StringValue, PiecesOk;
    assert ([h] + rest)[1..] == rest;
  }

  lemma {:induction false} MembersLaid(members: seq<Member>, format: bool, depth: nat)
    requires members != [] && PrintableMembers(members)
    ensures var r := EntriesOf(members, format, depth);
      && EntriesOk(r) && EntriesText(r) == Gap(format) + MembersText(members, format, depth)
      && EntriesValue(r) == members && LevelsOfEntries(r) == NestingOfMembers(members)
    decreases members, 0
  {
    hide Laid, DocOk, DocText, DocValue, Text, Levels, Nesting, Ws, EntriesText, EntriesOk, EntriesValue,
      LevelsOfEntries, EntryText, StringValue, PiecesOk, NewLine, MembersText, Quoted;
    var tab: Str := if format then Ascii("\t") else [];
    var last := if |members| == 1 then NewLine(format, depth) else [];
    var h := Entry(NewLine(format, depth + 1), PiecesOf(members[0].key), [],
      Slot(tab, Laid(members[0].value, format, depth + 1), last));
    var rest := EntriesOf(members[1..], format, depth);
    TextLaid(members[0].value, format, depth + 1);
    KeyLaid(members[0].key);
    NewLineWs(format, depth);
    NewLineWs(format, depth + 1);
    NoWs();
    TabWs(format);
    if |members| > 1 {
      MembersLaid(members[1..], format, depth);
    } else {
      NoEntries();
    }
    EntriesStep(h, rest);
    EntryLaid(members, format, depth, h);
  }

  lemma KeyLaid(key: Str)
    requires NulFree(key)
    ensures PiecesOk(PiecesOf(key)) && StringText(PiecesOf(key)) == Quoted(key) && StringValue(PiecesOf(key)) == key
  {
    StringLaid(key);
    NulFreeCString(key);
  }

  lemma TabWs(format: bool)
    ensures Ws(if format then Ascii("\t") else [])
    ensures ColonText(format) == [COLON] + if format then Ascii("\t") else []
  {
  }

  lemma NoEntries()
    ensures EntriesOk([]) && EntriesValue([]) == [] && LevelsOfEntries([]) == 0
  {
  }

  /** The line breaks, printed behind the members, are the ones laid out before them. */
  lemma EntryLaid(members: seq<Member>, format: bool, depth: nat, h: Entry)
    requires members != [] && PrintableMembers(members)
    requires h.before == Gap(format) + Indent(format, depth + 1) && h.behind == []
    requires StringText(h.key) == Quoted(members[0].key)
    requires [COLON] + h.slot.before == ColonText(format)
    requires DocText(h.slot.doc) == Text(members[0].value, format, depth + 1)
    requires h.slot.behind == if |members| == 1 then Gap(format) + Indent(format, depth) else []
    ensures Gap(format) + MembersText(members, format, depth)
         == EntryText(h)
          + if |members| == 1 then [CLOSE_BRACE] else [COMMA] + (Gap(format) + MembersText(members[1..], format, depth))
  {
    var t, rest := Text(members[0].value, format, depth + 1), MembersText(members[1..], format, depth);
    var more := if |members| == 1 then [CLOSE_BRACE] else [COMMA] + (Gap(format) + rest);
    LastLine(members, format, depth);
    hide *;
    Regrouped(Gap(format), Indent(format, depth + 1), Quoted(members[0].key), h.slot.before, t, h.slot.behind, more);
    TextOfEntry(h);
  }

  lemma TextOfEntry(h: Entry)
    ensures var value := h.slot.before + DocText(h.slot.doc) + h.slot.behind;
      EntryText(h) == h.before + (StringText(h.key) + (h.behind + ([COLON] + value)))
  {
  }

  lemma LastLine(members: seq<Member>, format: bool, depth: nat)
    requires members != []
    ensures var last, rest := |members| == 1, MembersText(members[1..], format, depth);
      var behind := if last then Gap(format) + Indent(format, depth) else [];
      var more := if last then [CLOSE_BRACE] else [COMMA] + (Gap(format) + rest);
      MembersText(members, format, depth)
      == Indent(format, depth + 1) + (Quoted(members[0].key)
          + (ColonText(format) + (Text(members[0].value, format, depth + 1) + (behind + more))))
  {
    hide Text, Quoted, Gap, Indent, ColonText;
    var last, rest := |members| == 1, MembersText(members[1..], format, depth);
    if last {
      assert rest == Indent(format, depth) + [CLOSE_BRACE];
      assert Gap(format) + rest == Gap(format) + Indent(format, depth) + [CLOSE_BRACE];
    } else {
      assert [COMMA] + Gap(format) + rest == [] + ([COMMA] + (Gap(format) + rest));
    }
  }

  lemma Regrouped(gap: Str, indent: Str, key: Str, tab: Str, t: Str, behind: Str, more: Str)
    ensures gap + (indent + (key + (([COLON] + tab) + (t + (behind + more)))))
         == (gap + indent) + (key + ([] + ([COLON] + (tab + t + behind)))) + more
  {
  }
}
