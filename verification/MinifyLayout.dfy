/** Minifying a document strips the white space around its values. */
module MinifyLayout {
  import opened Prelude
  import opened Json
  import opened StringCodec
  import opened Parser
  import Minify
  import MinifyParts
  import opened PrintText
  import opened Grammar

  type Part = MinifyParts.Part

  /** The document without white space. */
  function Stripped(d: Doc): Doc
    decreases d, 1
  {
    match d
    case DEmptyArray(_) => DEmptyArray([])
    case DArray(items) => DArray(StrippedSlots(items))
    case DEmptyObject(_) => DEmptyObject([])
    case DObject(members) => DObject(StrippedEntries(members))
    case _ => d
  }

  function StrippedSlots(items: seq<Slot>): (r: seq<Slot>)
    ensures |r| == |items|
    decreases items, 0
  {
    if items == [] then [] else [Slot([], Stripped(items[0].doc), [])] + StrippedSlots(items[1..])
  }

  function StrippedEntries(members: seq<Entry>): (r: seq<Entry>)
    ensures |r| == |members|
    decreases members, 0
  {
    if members == [] then []
    else
      [Entry([], members[0].key, [], Slot([], Stripped(members[0].slot.doc), []))] + StrippedEntries(members[1..])
  }

  /** The string does not end in an escaped backslash, for which minifying would miss its end. */
  predicate EndFound(s: seq<Piece>) {
    s != [] ==> s[|s| - 1] != Short(1)
  }

  /** No string or name in the document ends in an escaped backslash. */
  predicate EndsFound(d: Doc)
    decreases d, 1
  {
    match d
    case DString(s) => EndFound(s)
    case DArray(items) => SlotEndsFound(items)
    case DObject(members) => EntryEndsFound(members)
    case _ => true
  }

  predicate SlotEndsFound(items: seq<Slot>)
    decreases items, 0
  {
    items != [] ==> EndsFound(items[0].doc) && SlotEndsFound(items[1..])
  }

  predicate EntryEndsFound(members: seq<Entry>)
    decreases members, 0
  {
    members != [] ==>
      EndFound(members[0].key) && EndsFound(members[0].slot.doc) && EntryEndsFound(members[1..])
  }

  // ----- pieces that are minified one by one -----

  predicate Whole(p: Part) {
    MinifyParts.PartOk(p) && (p.Plain? || p.Space? || (p.Literal? && p.closed))
  }

  predicate AllWhole(parts: seq<Part>) {
    forall i | 0 <= i < |parts| :: Whole(parts[i])
  }

  /** Minifying `t`, wherever it stands outside of literals, yields `u`. */
  ghost predicate Sheds(t: Str, u: Str) {
    exists parts: seq<Part> ::
      AllWhole(parts) && MinifyParts.PartsText(parts) == t && MinifyParts.Essence(parts) == u
  }

  lemma {:induction false} WholeIsOk(parts: seq<Part>)
    requires AllWhole(parts)
    ensures MinifyParts.PartsOk(parts)
  {
    hide MinifyParts.PartOk;
    if parts != [] {
      assert Whole(parts[0]);
      WholeIsOk(parts[1..]);
    }
  }

  lemma ShedIsMinified(t: Str, u: Str)
    requires Sheds(t, u)
    ensures Minify.Minified(t) == u
  {
    hide AllWhole, MinifyParts.PartsText, MinifyParts.Essence, Minify.MinifiedFrom;
    var parts: seq<Part> :|
      AllWhole(parts) && MinifyParts.PartsText(parts) == t && MinifyParts.Essence(parts) == u;
    WholeIsOk(parts);
    assert t[0..] == t;
    MinifyParts.PartsMinified(t, 0, parts);
  }

  lemma {:induction false} TextConcat(a: seq<Part>, b: seq<Part>)
    ensures MinifyParts.PartsText(a + b) == MinifyParts.PartsText(a) + MinifyParts.PartsText(b)
    decreases |a|
  {
    hide MinifyParts.PartText;
    if a == [] {
      assert a + b == b;
    } else {
      assert (a + b)[0] == a[0] && (a + b)[1..] == a[1..] + b;
      TextConcat(a[1..], b);
      Associative(MinifyParts.PartText(a[0]), MinifyParts.PartsText(a[1..]), MinifyParts.PartsText(b));
    }
  }

  lemma {:induction false} EssenceConcat(a: seq<Part>, b: seq<Part>)
    ensures MinifyParts.Essence(a + b) == MinifyParts.Essence(a) + MinifyParts.Essence(b)
    decreases |a|
  {
    hide MinifyParts.PartText, MinifyParts.Stays;
    if a == [] {
      assert a + b == b;
    } else {
      assert (a + b)[0] == a[0] && (a + b)[1..] == a[1..] + b;
      EssenceConcat(a[1..], b);
      var first := if MinifyParts.Stays(a[0]) then MinifyParts.PartText(a[0]) else [];
      Associative(first, MinifyParts.Essence(a[1..]), MinifyParts.Essence(b));
    }
  }

  lemma Associative(a: Str, b: Str, c: Str)
    ensures a + (b + c) == a + b + c
  {
  }

  lemma ShedJoined(t: Str, u: Str, t2: Str, u2: Str)
    requires Sheds(t, u) && Sheds(t2, u2)
    ensures Sheds(t + t2, u + u2)
  {
    hide MinifyParts.PartsText, MinifyParts.Essence, Whole;
    var a: seq<Part> :|
      AllWhole(a) && MinifyParts.PartsText(a) == t && MinifyParts.Essence(a) == u;
    var b: seq<Part> :|
      AllWhole(b) && MinifyParts.PartsText(b) == t2 && MinifyParts.Essence(b) == u2;
    TextConcat(a, b);
    EssenceConcat(a, b);
    assert AllWhole(a + b);
  }

  lemma NothingShed()
    ensures Sheds([], [])
  {
    var none: seq<Part> := [];
    assert MinifyParts.PartsText(none) == [] && MinifyParts.Essence(none) == [];
    assert AllWhole(none);
  }

  lemma OneShed(p: Part)
    requires Whole(p)
    ensures Sheds(MinifyParts.PartText(p), if MinifyParts.Stays(p) then MinifyParts.PartText(p) else [])
  {
    hide MinifyParts.PartText, MinifyParts.Stays, Whole;
    var one := [p];
    assert one[1..] == [];
    assert MinifyParts.PartsText([]) == [] && MinifyParts.Essence([]) == [];
    assert AllWhole(one);
  }

  /** Bytes that minifying copies one by one. */
  predicate Visible(b: byte) {
    b > 32 && b != Minify.SLASH && b != QUOTE
  }

  lemma {:induction false} VisibleShed(t: Str)
    requires forall i | 0 <= i < |t| :: Visible(t[i])
    ensures Sheds(t, t)
  {
    if t == [] {
      NothingShed();
    } else {
      ByteShed(t[0]);
      hide Sheds;
      VisibleShed(t[1..]);
      ShedJoined([t[0]], [t[0]], t[1..], t[1..]);
      assert [t[0]] + t[1..] == t;
    }
  }

  lemma ByteShed(b: byte)
    ensures Visible(b) ==> Sheds([b], [b])
    ensures b == 32 || b == 9 || b == 10 || b == 13 ==> Sheds([b], [])
  {
    hide Sheds;
    MinifyParts.BlankBytes(b);
    if Visible(b) {
      OneShed(MinifyParts.Plain(b));
    } else if b == 32 || b == 9 || b == 10 || b == 13 {
      OneShed(MinifyParts.Space(b));
    }
  }

  lemma {:induction false} WsShed(ws: Str)
    requires Ws(ws)
    ensures Sheds(ws, [])
  {
    hide Sheds;
    if ws == [] {
      NothingShed();
    } else {
      ByteShed(ws[0]);
      var u: Str := [];
      WsShed(ws[1..]);
      ShedJoined([ws[0]], [], ws[1..], []);
      assert [ws[0]] + ws[1..] == ws && [] + [] == u;
    }
  }

  // ----- strings -----

  /** Every quote in `t` is escaped, and the last byte is a backslash only if `ends` says so. */
  predicate Escaping(t: Str, ends: bool) {
    && t != [] && MinifyParts.QuotesEscaped(t) && t[0] != QUOTE
    && (t[|t| - 1] == BACKSLASH <==> ends)
  }

  lemma HexIsPlain(d: nat, upper: bool)
    requires d < 16
    ensures DigitByte(d, upper) != QUOTE && DigitByte(d, upper) != BACKSLASH
  {
    DigitBytes();
    hide LOWER_DIGITS, UPPER_DIGITS;
  }

  lemma UnicodeEscaping(code: CodeUnit, upper: Cases)
    ensures Escaping(UnicodeText(code, upper), false)
  {
    assert Ascii("\\u") == [BACKSLASH, LETTER_U];
    hide Ascii, DigitByte;
    HexIsPlain(code / 0x1000, upper[0]);
    HexIsPlain(code / 0x100 % 0x10, upper[1]);
    HexIsPlain(code / 0x10 % 0x10, upper[2]);
    HexIsPlain(code % 0x10, upper[3]);
  }

  lemma EscapingJoined(a: Str, b: Str, middle: bool, ends: bool)
    requires Escaping(a, middle) && Escaping(b, ends)
    ensures Escaping(a + b, ends)
  {
    var t := a + b;
    forall i | 0 <= i < |t| && t[i] == QUOTE ensures i > 0 && t[i - 1] == BACKSLASH {
      if i >= |a| {
        assert b[i - |a|] == QUOTE;
      } else {
        assert a[i] == QUOTE;
      }
    }
  }

  lemma ShortEscaping(k: ShortIndex)
    ensures Escaping(PieceText(Short(k)), k == 1)
  {
    assert SHORT_LETTERS == [34, 92, 47, 98, 102, 110, 114, 116];
    hide SHORT_LETTERS, UnicodeText;
    assert PieceText(Short(k)) == [BACKSLASH, SHORT_LETTERS[k]];
    hide PieceText;
  }

  lemma PairEscaping(point: Supplementary, high: Cases, low: Cases)
    ensures Escaping(PieceText(Pair(point, high, low)), false)
  {
    hide Escaping, UnicodeText;
    TwoEscaping(0xD800 + (point - 0x10000) / 0x400, high, 0xDC00 + (point - 0x10000) % 0x400, low);
  }

  lemma TwoEscaping(first: CodeUnit, high: Cases, second: CodeUnit, low: Cases)
    ensures Escaping(UnicodeText(first, high) + UnicodeText(second, low), false)
  {
    hide *;
    UnicodeEscaping(first, high);
    UnicodeEscaping(second, low);
    EscapingJoined(UnicodeText(first, high), UnicodeText(second, low), false, false);
  }

  lemma PieceEscaping(p: Piece)
    requires PieceOk(p)
    ensures Escaping(PieceText(p), p == Short(1))
  {
    match p
    case Plain(b) =>
    case Short(k) => ShortEscaping(k);
    case Unicode(code, upper) => UnicodeEscaping(code, upper);
    case Pair(point, high, low) => PairEscaping(point, high, low);
  }

  lemma {:induction false} PiecesEscaping(s: seq<Piece>)
    requires PiecesOk(s) && s != []
    ensures Escaping(PiecesText(s), s[|s| - 1] == Short(1))
    decreases |s|
  {
    hide Escaping, PieceText, PieceOk;
    PieceEscaping(s[0]);
    if |s| == 1 {
      assert PiecesText(s[1..]) == [];
      assert PieceText(s[0]) + [] == PieceText(s[0]);
    } else {
      PiecesEscaping(s[1..]);
      EscapingJoined(PieceText(s[0]), PiecesText(s[1..]), s[0] == Short(1), s[|s| - 1] == Short(1));
    }
  }

  /** A string whose end is found is copied. */
  lemma StringShed(s: seq<Piece>)
    requires PiecesOk(s) && EndFound(s)
    ensures Sheds(StringText(s), StringText(s))
  {
    hide PieceOk, Sheds;
    if s != [] {
      PiecesEscaping(s);
    }
    hide PiecesText, PiecesOk;
    var p := MinifyParts.Literal(PiecesText(s), true);
    assert PiecesText([]) == [] by {
      NoPieces();
    }
    assert MinifyParts.PartText(p) == StringText(s);
    OneShed(p);
  }

  lemma NoPieces()
    ensures PiecesText([]) == []
  {
  }

  // ----- documents -----

  lemma NumeralShed(n: Numeral)
    requires NumeralOk(n)
    ensures Sheds(NumeralText(n), NumeralText(n))
  {
    NumeralTaken(n);
    hide NumeralText, NumeralOk, StrtodLength;
    VisibleShed(NumeralText(n));
  }

  /** Two shed texts around a third. */
  lemma ShedAround(a: Str, t: Str, u: Str, b: Str)
    requires Sheds(a, []) && Sheds(t, u) && Sheds(b, [])
    ensures Sheds(a + t + b, u)
  {
    hide Sheds;
    ShedJoined(a, [], t, u);
    ShedJoined(a + t, [] + u, b, []);
    assert [] + u + [] == u;
  }

  lemma TokenShed(b: byte)
    requires b == OPEN_BRACKET || b == CLOSE_BRACKET || b == OPEN_BRACE || b == CLOSE_BRACE || b == COMMA || b == COLON
    ensures Sheds([b], [b])
  {
    hide Sheds;
    ByteShed(b);
  }

  /** Minifying keeps the values of a document and strips the white space around them. */
  lemma {:induction false} DocShed(d: Doc)
    requires DocOk(d) && EndsFound(d)
    ensures Sheds(DocText(d), DocText(Stripped(d)))
    decreases d, 1
  {
    hide Sheds, SlotsText, EntriesText, NumeralText, NumeralOk, StringText, PiecesOk, EndFound;
    match d
    case DNumber(n) => NumeralShed(n);
    case DString(s) => StringShed(s);
    case DEmptyArray(ws) => EmptyShed(OPEN_BRACKET, ws, CLOSE_BRACKET);
    case DArray(items) =>
      SlotsShed(items);
      TokenShed(OPEN_BRACKET);
      ShedJoined([OPEN_BRACKET], [OPEN_BRACKET], SlotsText(items), SlotsText(StrippedSlots(items)));
    case DEmptyObject(ws) => EmptyShed(OPEN_BRACE, ws, CLOSE_BRACE);
    case DObject(members) =>
      EntriesShed(members);
      TokenShed(OPEN_BRACE);
      ShedJoined([OPEN_BRACE], [OPEN_BRACE], EntriesText(members), EntriesText(StrippedEntries(members)));
    case _ => VisibleShed(DocText(d));
  }

  lemma EmptyShed(open: byte, ws: Str, close: byte)
    requires (open == OPEN_BRACKET && close == CLOSE_BRACKET) || (open == OPEN_BRACE && close == CLOSE_BRACE)
    requires Ws(ws)
    ensures Sheds([open] + (ws + [close]), [open] + ([] + [close]))
  {
    hide Sheds, Ws;
    TokenShed(open);
    TokenShed(close);
    WsShed(ws);
    ShedJoined(ws, [], [close], [close]);
    ShedJoined([open], [open], ws + [close], [] + [close]);
  }

  lemma {:induction false} SlotShed(s: Slot)
    requires SlotOk(s) && EndsFound(s.doc)
    ensures Sheds(SlotText(s), SlotText(Slot([], Stripped(s.doc), [])))
    decreases s, 2
  {
    hide Sheds, Ws, DocText, DocOk, EndsFound, Stripped;
    DocShed(s.doc);
    WsShed(s.before);
    WsShed(s.behind);
    ShedAround(s.before, DocText(s.doc), DocText(Stripped(s.doc)), s.behind);
    assert [] + DocText(Stripped(s.doc)) + [] == DocText(Stripped(s.doc));
  }

  lemma {:induction false} SlotsShed(items: seq<Slot>)
    requires SlotsOk(items) && SlotEndsFound(items)
    ensures Sheds(SlotsText(items), SlotsText(StrippedSlots(items)))
    decreases items, 0
  {
    hide Sheds, SlotText, Stripped, DocOk, EndsFound, Ws;
    TokenShed(CLOSE_BRACKET);
    TokenShed(COMMA);
    if items != [] {
      var s, rest := items[0], SlotsText(items[1..]);
      var t := Slot([], Stripped(s.doc), []);
      var stripped := StrippedSlots(items[1..]);
      assert StrippedSlots(items) == [t] + stripped && ([t] + stripped)[1..] == stripped;
      SlotShed(s);
      if |items| == 1 {
        ShedJoined(SlotText(s), SlotText(t), [CLOSE_BRACKET], [CLOSE_BRACKET]);
      } else {
        SlotsShed(items[1..]);
        ShedJoined([COMMA], [COMMA], rest, SlotsText(stripped));
        ShedJoined(SlotText(s), SlotText(t), [COMMA] + rest, [COMMA] + SlotsText(stripped));
      }
    }
  }

  lemma {:induction false} EntryShed(e: Entry)
    requires Ws(e.before) && PiecesOk(e.key) && Ws(e.behind) && SlotOk(e.slot)
    requires EndFound(e.key) && EndsFound(e.slot.doc)
    ensures Sheds(EntryText(e), EntryText(Entry([], e.key, [], Slot([], Stripped(e.slot.doc), []))))
    decreases e, 3
  {
    hide Sheds, Ws, SlotText, StringText, DocOk, EndsFound, Stripped, PiecesOk, EndFound;
    var key, slot := StringText(e.key), Slot([], Stripped(e.slot.doc), []);
    WsShed(e.before);
    WsShed(e.behind);
    StringShed(e.key);
    SlotShed(e.slot);
    TokenShed(COLON);
    ShedJoined([COLON], [COLON], SlotText(e.slot), SlotText(slot));
    ShedJoined(e.behind, [], [COLON] + SlotText(e.slot), [COLON] + SlotText(slot));
    var tail, shed := e.behind + ([COLON] + SlotText(e.slot)), [] + ([COLON] + SlotText(slot));
    ShedJoined(key, key, tail, shed);
    ShedJoined(e.before, [], key + tail, key + shed);
  }

  lemma {:induction false} EntriesShed(members: seq<Entry>)
    requires EntriesOk(members) && EntryEndsFound(members)
    ensures Sheds(EntriesText(members), EntriesText(StrippedEntries(members)))
    decreases members, 0
  {
    hide Sheds, EntryText, Stripped, DocOk, EndsFound, Ws, PiecesOk, EndFound;
    TokenShed(CLOSE_BRACE);
    TokenShed(COMMA);
    if members != [] {
      var e, rest := members[0], EntriesText(members[1..]);
      var t := Entry([], e.key, [], Slot([], Stripped(e.slot.doc), []));
      var stripped := StrippedEntries(members[1..]);
      assert StrippedEntries(members) == [t] + stripped && ([t] + stripped)[1..] == stripped;
      EntryShed(e);
      if |members| == 1 {
        ShedJoined(EntryText(e), EntryText(t), [CLOSE_BRACE], [CLOSE_BRACE]);
      } else {
        EntriesShed(members[1..]);
        ShedJoined([COMMA], [COMMA], rest, EntriesText(stripped));
        ShedJoined(EntryText(e), EntryText(t), [COMMA] + rest, [COMMA] + EntriesText(stripped));
      }
    }
  }

  /** Minifying a document whose strings' ends are found strips its white space. */
  lemma DocMinified(s: Slot)
    requires SlotOk(s) && EndsFound(s.doc)
    ensures Minify.Minified(SlotText(s)) == DocText(Stripped(s.doc))
  {
    hide Minify.Minified, Sheds, DocText, Stripped;
    SlotShed(s);
    ShedIsMinified(SlotText(s), SlotText(Slot([], Stripped(s.doc), [])));
    assert [] + DocText(Stripped(s.doc)) + [] == DocText(Stripped(s.doc));
  }
}
