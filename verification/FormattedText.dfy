/** Exactly when minifying formatted text gives the unformatted text. */
module FormattedText {
  import opened Prelude
  import opened Json
  import opened StringCodec
  import opened StringLaws
  import opened Parser
  import Minify
  import MinifyParts
  import opened PrintText
  import Grammar
  import opened Layout
  import opened MinifyLayout

  /** A literal that ends in an escaped backslash, so that minifying misses its end. */
  predicate Runaway(q: Str) {
    && |q| > 2 && q[0] == QUOTE && q[|q| - 1] == QUOTE && q[|q| - 2] == BACKSLASH
    && MinifyParts.QuotesEscaped(q[1..])
  }

  /** Bytes that are neither blank nor a quote. */
  predicate Quiet(x: Str) {
    forall i | 0 <= i < |x| :: x[i] > 32 && x[i] != QUOTE
  }

  /** `t` is formatted and `u` unformatted text, and only bytes they share follow the first such literal. */
  ghost predicate Hangs(t: Str, u: Str) {
    exists a: Str, b: Str, q: Str, x: Str ::
      Sheds(a, b) && Runaway(q) && Quiet(x) && t == a + q + x && u == b + q + x
  }

  /** There is a blank in `t` behind the first such literal, before the next quote, but not in `u`. */
  ghost predicate Differs(t: Str, u: Str) {
    exists a: Str, b: Str, q: Str, x: Str, r: Str, w: Str ::
      && Sheds(a, b) && Runaway(q) && Quiet(x) && t == a + q + x + r && u == b + q + x + w
      && r != [] && r[0] <= 32 && w != [] && w[0] > 32
  }

  lemma HangsBehind(a: Str, b: Str, t: Str, u: Str)
    requires Sheds(a, b) && Hangs(t, u)
    ensures Hangs(a + t, b + u)
  {
    hide Sheds, Runaway, Quiet;
    var a', b', q, x :| Sheds(a', b') && Runaway(q) && Quiet(x) && t == a' + q + x && u == b' + q + x;
    ShedJoined(a, b, a', b');
    assert a + t == (a + a') + q + x && b + u == (b + b') + q + x;
  }

  lemma DiffersBehind(a: Str, b: Str, t: Str, u: Str)
    requires Sheds(a, b) && Differs(t, u)
    ensures Differs(a + t, b + u)
  {
    hide Sheds, Runaway, Quiet;
    var a', b', q, x, r, w :|
      && Sheds(a', b') && Runaway(q) && Quiet(x) && t == a' + q + x + r && u == b' + q + x + w
      && r != [] && r[0] <= 32 && w != [] && w[0] > 32;
    ShedJoined(a, b, a', b');
    assert a + t == (a + a') + q + x + r && b + u == (b + b') + q + x + w;
  }

  lemma DiffersBefore(t: Str, u: Str, y: Str, z: Str)
    requires Differs(t, u)
    ensures Differs(t + y, u + z)
  {
    hide Sheds, Runaway, Quiet;
    var a, b, q, x, r, w :|
      && Sheds(a, b) && Runaway(q) && Quiet(x) && t == a + q + x + r && u == b + q + x + w
      && r != [] && r[0] <= 32 && w != [] && w[0] > 32;
    assert t + y == a + q + x + (r + y) && u + z == b + q + x + (w + z);
    assert (r + y)[0] == r[0] && (w + z)[0] == w[0];
  }

  /** Behind a hanging literal: more shared bytes, or a blank that only the formatted text has. */
  lemma HangsBefore(t: Str, u: Str, y: Str)
    requires Hangs(t, u) && Quiet(y)
    ensures Hangs(t + y, u + y)
  {
    hide Sheds, Runaway;
    var a, b, q, x :| Sheds(a, b) && Runaway(q) && Quiet(x) && t == a + q + x && u == b + q + x;
    assert t + y == a + q + (x + y) && u + y == b + q + (x + y);
    assert Quiet(x + y);
  }

  lemma HangsThenDiffers(t: Str, u: Str, r: Str, w: Str)
    requires Hangs(t, u) && r != [] && r[0] <= 32 && w != [] && w[0] > 32
    ensures Differs(t + r, u + w)
  {
    hide Sheds, Runaway, Quiet;
    var a, b, q, x :| Sheds(a, b) && Runaway(q) && Quiet(x) && t == a + q + x && u == b + q + x;
    assert t + r == a + q + x + r && u + w == b + q + x + w;
  }

  // ----- what minifying makes of them -----

  lemma {:induction false} WholeFirst(t: Str, i: nat, parts: seq<Part>)
    requires AllWhole(parts) && Occurs(t, i, MinifyParts.PartsText(parts))
    ensures i + |MinifyParts.PartsText(parts)| <= |t|
    ensures Minify.MinifiedFrom(t, i)
         == MinifyParts.Essence(parts) + Minify.MinifiedFrom(t, i + |MinifyParts.PartsText(parts)|)
    decreases |parts|
  {
    hide Occurs, Minify.MinifiedFrom, MinifyParts.PartText, MinifyParts.PartOk;
    if parts == [] {
      OccursAtMost(t, i);
    } else {
      var p, rest := parts[0], MinifyParts.PartsText(parts[1..]);
      assert Whole(p);
      OccursSplit(t, i, MinifyParts.PartText(p), rest);
      MinifyParts.PartMinified(t, i, p);
      WholeFirst(t, i + |MinifyParts.PartText(p)|, parts[1..]);
    }
  }

  lemma OccursAtMost(t: Str, i: nat)
    requires Occurs(t, i, [])
    ensures i <= |t|
  {
  }

  lemma ShedFirst(t: Str, a: Str, b: Str)
    requires Sheds(a, b) && a <= t
    ensures Minify.Minified(t) == b + Minify.MinifiedFrom(t, |a|)
  {
    hide AllWhole, Minify.MinifiedFrom, MinifyParts.PartsText, MinifyParts.Essence;
    var parts: seq<Part> :|
      AllWhole(parts) && MinifyParts.PartsText(parts) == a && MinifyParts.Essence(parts) == b;
    WholeFirst(t, 0, parts);
  }

  /** No quote in such a literal, or in the bytes that follow it, ends it. */
  lemma NoEnd(t: Str, i: nat, q: Str, x: Str)
    requires Runaway(q) && Quiet(x) && Occurs(t, i, q + x)
    ensures i + |q + x| <= |t| && t[i] == QUOTE && MinifyParts.NoEndQuote(t, i + 1, i + |q + x|)
  {
    OccursAt(t, i, q + x);
    hide Occurs;
    var y, start := q + x, i + 1;
    assert t[i + 0] == y[0];
    forall j | start <= j < i + |y| ensures !MinifyParts.EndQuote(t, start, j) {
      assert t[i + (j - i)] == y[j - i] && t[i + (j - start)] == y[j - start];
      if j < i + |q| {
        assert y[j - i] == q[1..][j - start];
        assert j > start ==> y[j - start] == q[1..][j - start - 1];
      }
    }
  }

  /** So the literal is taken to end behind them. */
  lemma EndBeyond(t: Str, i: nat, n: nat)
    requires i < n <= |t| && MinifyParts.NoEndQuote(t, i + 1, n) && (n < |t| ==> t[n] != QUOTE)
    ensures n <= Minify.LiteralEnd(t, i + 1) && (n < |t| ==> n < Minify.LiteralEnd(t, i + 1))
    ensures n == |t| ==> Minify.LiteralEnd(t, i + 1) == n
  {
    var start := i + 1;
    var ends := (j: nat) => MinifyParts.EndQuote(t, start, j);
    var end := MinifyParts.First(|t|, ends, n);
    forall j | start <= j < end ensures !MinifyParts.EndQuote(t, start, j) {
      assert j >= n ==> !ends(j);
    }
    assert end < |t| ==> ends(end);
    hide Minify.LiteralEnd;
    MinifyParts.QuoteEnds(t, start, end);
  }

  /** What the minified text begins with. */
  lemma RunawayTaken(t: Str, a: Str, b: Str, q: Str, x: Str) returns (end: nat)
    requires Sheds(a, b) && Runaway(q) && Quiet(x) && a + q + x <= t
    requires |a + q + x| < |t| ==> t[|a + q + x|] != QUOTE
    ensures |a + q + x| <= end <= |t| && (|a + q + x| < |t| ==> |a + q + x| < end)
    ensures |a + q + x| == |t| ==> end == |t|
    ensures Minify.Minified(t) == b + (t[|a|..end] + Minify.MinifiedFrom(t, end))
  {
    hide Sheds, Runaway, Quiet, Minify.MinifiedFrom, Minify.LiteralEnd, MinifyParts.NoEndQuote;
    var i := |a|;
    assert t[..i] == a && t[i..i + |q + x|] == q + x;
    ShedFirst(t, a, b);
    NoEnd(t, i, q, x);
    RunawayLong(q);
    EndBeyond(t, i, i + |q + x|);
    Minify.MinifiedStep(t, i);
    end := Minify.LiteralEnd(t, i + 1);
  }

  lemma RunawayLong(q: Str)
    requires Runaway(q)
    ensures |q| > 2
  {
  }

  lemma HangsMinified(t: Str, u: Str)
    requires Hangs(t, u)
    ensures Minify.Minified(t) == u
  {
    hide Sheds, Runaway, Quiet, Minify.MinifiedFrom;
    var a, b, q, x :| Sheds(a, b) && Runaway(q) && Quiet(x) && t == a + q + x && u == b + q + x;
    var end := RunawayTaken(t, a, b, q, x);
    Minify.NothingLeft(t);
    assert t[|a|..] == q + x;
    assert b + (q + x + []) == b + q + x;
  }

  lemma DiffersNotMinified(t: Str, u: Str)
    requires Differs(t, u)
    ensures Minify.Minified(t) != u
  {
    hide Sheds, Runaway, Quiet, Minify.MinifiedFrom, Minify.Minified;
    var a, b, q, x, r, w :|
      && Sheds(a, b) && Runaway(q) && Quiet(x) && t == a + q + x + r && u == b + q + x + w
      && r != [] && r[0] <= 32 && w != [] && w[0] > 32;
    var n := |a + q + x|;
    assert t[n] == r[0];
    var end := RunawayTaken(t, a, b, q, x);
    var k := |b + q + x|;
    BlankKept(t, |a|, n, end, b, Minify.MinifiedFrom(t, end));
    assert Minify.Minified(t)[k] == r[0] && u[k] == w[0];
  }

  lemma BlankKept(t: Str, i: nat, n: nat, end: nat, b: Str, rest: Str)
    requires i <= n < end <= |t|
    ensures var m := b + (t[i..end] + rest); |b| + (n - i) < |m| && m[|b| + (n - i)] == t[n]
  {
  }

  // ----- what becomes of a tree -----

  /** Minifying gives the text back, does so up to the end, or keeps a blank. */
  datatype Fate = Fine | Hanging | Differing

  ghost predicate Fated(f: Fate, t: Str, u: Str) {
    match f
    case Fine => Sheds(t, u)
    case Hanging => Hangs(t, u)
    case Differing => Differs(t, u)
  }

  predicate EndsInBackslash(s: Str) {
    s != [] && s[|s| - 1] == BACKSLASH
  }

  function FateOf(v: Json): Fate
    decreases v, 1
  {
    match v
    case String(s) => if EndsInBackslash(s) then Hanging else Fine
    case Array(items) => FateOfItems(items)
    case Object(members) => if AllFine(members) then Fine else Differing
    case _ => Fine
  }

  /** A string that ends in a backslash must be the last of all, with nothing but brackets behind it. */
  function FateOfItems(items: seq<Json>): Fate
    decreases items, 0
  {
    if items == [] then Fine
    else
      var first := FateOf(items[0]);
      if first.Fine? then FateOfItems(items[1..])
      else if first.Hanging? && |items| == 1 then Hanging
      else Differing
  }

  /** In an object there is always a line break behind it. */
  predicate AllFine(members: seq<Member>)
    decreases members, 0
  {
    members != [] ==>
      !EndsInBackslash(members[0].key) && FateOf(members[0].value).Fine? && AllFine(members[1..])
  }

  lemma FatedBehind(f: Fate, a: Str, b: Str, t: Str, u: Str)
    requires Sheds(a, b) && Fated(f, t, u)
    ensures Fated(f, a + t, b + u)
  {
    hide Sheds, Hangs, Differs;
    match f
    case Fine => ShedJoined(a, b, t, u);
    case Hanging => HangsBehind(a, b, t, u);
    case Differing => DiffersBehind(a, b, t, u);
  }

  /** A literal is copied, or hangs if the string ends in a backslash. */
  lemma QuotedFated(s: Str)
    ensures Fated(if EndsInBackslash(s) then Hanging else Fine, Quoted(s), Quoted(s))
  {
    hide Sheds, Runaway, Escaping, Escaped, Grammar.PiecesText, Grammar.PiecesOk;
    StringLaid(s);
    var p := PiecesOf(s);
    assert Grammar.StringText(p) == Quoted(s);
    if EndsInBackslash(s) {
      PiecesEscaping(p);
      EscapingRuns(Escaped(s));
      HangsAlone(Quoted(s));
    } else {
      StringShed(p);
    }
  }

  lemma EscapingRuns(body: Str)
    requires Escaping(body, true)
    ensures Runaway([QUOTE] + body + [QUOTE])
  {
    var q := [QUOTE] + body + [QUOTE];
    assert q[1..] == body + [QUOTE];
    assert q[|q| - 2] == body[|body| - 1];
    forall i | 0 <= i < |q[1..]| && q[1..][i] == QUOTE ensures i > 0 && q[1..][i - 1] == BACKSLASH {
      assert i < |body| ==> q[1..][i] == body[i];
      assert i > 0 ==> q[1..][i - 1] == body[i - 1];
    }
  }

  lemma HangsAlone(q: Str)
    requires Runaway(q)
    ensures Hangs(q, q)
  {
    hide Runaway, Sheds;
    NothingShed();
    assert q == [] + q + [] && Quiet([]);
  }

  lemma {:induction false} TextFated(v: Json, depth: nat)
    requires Printable(v)
    ensures Fated(FateOf(v), Text(v, true, depth), Text(v, false, depth))
    decreases v, 1
  {
    hide Fated, Quoted, Sheds;
    match v
    case String(s) => QuotedFated(s);
    case Array(items) =>
      ItemsFated(items, depth);
      TokenShed(OPEN_BRACKET);
      FatedBehind(FateOfItems(items), [OPEN_BRACKET], [OPEN_BRACKET], ItemsText(items, true, depth),
        ItemsText(items, false, depth));
    case Object(members) => ObjectFated(members, depth);
    case _ => ScalarFated(v, depth);
  }

  lemma ScalarFated(v: Json, depth: nat)
    requires Printable(v) && !v.String? && !v.Array? && !v.Object?
    ensures Fated(Fine, Text(v, true, depth), Text(v, false, depth))
  {
    hide Sheds;
    if v.Number? {
      IntIsNumber(v.n);
    }
    hide IntText;
    VisibleShed(Text(v, true, depth));
  }

  lemma {:induction false} ItemsFated(items: seq<Json>, depth: nat)
    requires forall i | 0 <= i < |items| :: Printable(items[i])
    ensures Fated(FateOfItems(items), ItemsText(items, true, depth), ItemsText(items, false, depth))
    decreases items, 0
  {
    hide Fated, Sheds, Text, FateOf;
    TokenShed(CLOSE_BRACKET);
    if items == [] {
      FineFated([CLOSE_BRACKET], [CLOSE_BRACKET]);
    } else {
      var t, u := Text(items[0], true, depth + 1), Text(items[0], false, depth + 1);
      var y, z := ItemsText(items[1..], true, depth), ItemsText(items[1..], false, depth);
      TextFated(items[0], depth + 1);
      ItemsFated(items[1..], depth);
      if |items| == 1 {
        assert y == z == [CLOSE_BRACKET];
        LastFated(FateOf(items[0]), t, u, CLOSE_BRACKET);
      } else {
        TextStarts(items[1], false, depth + 1);
        MoreFated(FateOf(items[0]), t, u, FateOfItems(items[1..]), y, z, SPACE);
      }
    }
  }

  lemma FineFated(t: Str, u: Str)
    requires Sheds(t, u)
    ensures Fated(Fine, t, u)
  {
  }

  /** A value and the bracket behind it. */
  lemma LastFated(f: Fate, t: Str, u: Str, b: byte)
    requires Fated(f, t, u) && b == CLOSE_BRACKET
    ensures Fated(f, t + ([] + [b]), u + ([] + [b]))
  {
    hide Sheds, Hangs, Differs;
    TokenShed(b);
    assert [] + [b] == [b];
    match f
    case Fine => ShedJoined(t, u, [b], [b]);
    case Hanging => HangsBefore(t, u, [b]);
    case Differing => DiffersBefore(t, u, [b], [b]);
  }

  /** A value, a comma with a blank behind it in formatted text, and more. */
  lemma MoreFated(f: Fate, t: Str, u: Str, g: Fate, y: Str, z: Str, blank: byte)
    requires Fated(f, t, u) && Fated(g, y, z) && (blank == SPACE || blank == NEWLINE) && z != [] && z[0] > 32
    ensures Fated(if f.Fine? then g else Differing, t + ([COMMA, blank] + y), u + ([COMMA] + z))
  {
    hide Sheds, Hangs, Differs;
    match f
    case Fine =>
      hide Fated;
      FineShed(t, u);
      TokenShed(COMMA);
      ByteShed(blank);
      ShedJoined([COMMA], [COMMA], [blank], []);
      assert [COMMA] + [blank] == [COMMA, blank] && [COMMA] + [] == [COMMA];
      FatedBehind(g, [COMMA, blank], [COMMA], y, z);
      FatedBehind(g, t, u, [COMMA, blank] + y, [COMMA] + z);
    case Hanging =>
      HangsBefore(t, u, [COMMA]);
      HangsThenDiffers(t + [COMMA], u + [COMMA], [blank] + y, z);
      assert t + [COMMA] + ([blank] + y) == t + ([COMMA, blank] + y) && u + [COMMA] + z == u + ([COMMA] + z);
    case Differing => DiffersBefore(t, u, [COMMA, blank] + y, [COMMA] + z);
  }

  lemma FineShed(t: Str, u: Str)
    requires Fated(Fine, t, u)
    ensures Sheds(t, u)
  {
  }

  lemma {:induction false} ObjectFated(members: seq<Member>, depth: nat)
    requires PrintableMembers(members)
    ensures Fated(FateOf(Object(members)), Text(Object(members), true, depth), Text(Object(members), false, depth))
    decreases members, 1
  {
    hide Fated, Sheds, MembersText;
    var f, t, u := FateOf(Object(members)), MembersText(members, true, depth), MembersText(members, false, depth);
    MembersFated(members, depth);
    TokenShed(OPEN_BRACE);
    ByteShed(NEWLINE);
    FatedBehind(f, [NEWLINE], [], t, u);
    FatedBehind(f, [OPEN_BRACE], [OPEN_BRACE], [NEWLINE] + t, [] + u);
  }

  lemma IndentShed(depth: nat)
    ensures Sheds(Indent(true, depth), []) && Indent(false, depth) == []
  {
    hide Sheds;
    WsShed(Tabs(depth));
  }

  lemma {:induction false} MembersFated(members: seq<Member>, depth: nat)
    requires PrintableMembers(members)
    ensures Fated(if AllFine(members) then Fine else Differing, MembersText(members, true, depth),
      MembersText(members, false, depth))
    decreases members, 0
  {
    hide Fated, Sheds, Text, FateOf, Quoted, Indent, Printable;
    IndentShed(depth);
    IndentShed(depth + 1);
    TokenShed(CLOSE_BRACE);
    if members == [] {
      ShedJoined(Indent(true, depth), [], [CLOSE_BRACE], [CLOSE_BRACE]);
      FineFated(Indent(true, depth) + [CLOSE_BRACE], [] + [CLOSE_BRACE]);
    } else {
      var m, e := members[0], depth + 1;
      var t, u := Text(m.value, true, e), Text(m.value, false, e);
      var y, z := MembersText(members[1..], true, depth), MembersText(members[1..], false, depth);
      var g := if AllFine(members[1..]) then Fine else Differing;
      MembersFated(members[1..], depth);
      TextFated(m.value, e);
      MembersStart(members[1..], depth);
      LineFated(FateOf(m.value), t, u, g, y, z, |members| > 1);
      TextStarts(m.value, false, e);
      var h := if FateOf(m.value).Fine? then g else Differing;
      var ty, uz := t + (LineEnd(|members| > 1, true) + y), u + (LineEnd(|members| > 1, false) + z);
      KeyFated(m.key, h, ty, uz);
      var k := if EndsInBackslash(m.key) then Differing else h;
      FatedBehind(k, Indent(true, e), [], Quoted(m.key) + ([COLON, TAB] + ty), Quoted(m.key) + ([COLON] + uz));
    }
  }

  /** Unformatted, a member or the closing brace starts with a visible byte. */
  lemma MembersStart(members: seq<Member>, depth: nat)
    ensures var z := MembersText(members, false, depth); z != [] && z[0] > 32
  {
    hide Text, Escaped;
  }

  /** A value, the end of its line, and the lines that follow. */
  lemma LineFated(f: Fate, t: Str, u: Str, g: Fate, y: Str, z: Str, more: bool)
    requires Fated(f, t, u) && Fated(g, y, z) && z != [] && z[0] > 32
    ensures Fated(if f.Fine? then g else Differing, t + (LineEnd(more, true) + y), u + (LineEnd(more, false) + z))
  {
    hide Sheds, Hangs, Differs;
    if more {
      MoreFated(f, t, u, g, y, z, NEWLINE);
      assert LineEnd(true, true) == [COMMA, NEWLINE] && LineEnd(true, false) == [COMMA];
    } else {
      assert LineEnd(false, true) == [NEWLINE] && LineEnd(false, false) == [];
      assert [] + z == z;
      match f
      case Fine =>
        hide Fated;
        FineShed(t, u);
        ByteShed(NEWLINE);
        FatedBehind(g, [NEWLINE], [], y, z);
        FatedBehind(g, t, u, [NEWLINE] + y, [] + z);
      case Hanging => HangsThenDiffers(t, u, [NEWLINE] + y, z);
      case Differing => DiffersBefore(t, u, [NEWLINE] + y, z);
    }
  }

  /** A key, the colon with its tab, and what follows. */
  lemma KeyFated(key: Str, h: Fate, y: Str, z: Str)
    requires Fated(h, y, z) && z != [] && z[0] > 32
    ensures Fated(if EndsInBackslash(key) then Differing else h, Quoted(key) + ([COLON, TAB] + y),
      Quoted(key) + ([COLON] + z))
  {
    hide Sheds, Hangs, Differs, Quoted;
    var q := Quoted(key);
    QuotedFated(key);
    if EndsInBackslash(key) {
      HangsBefore(q, q, [COLON]);
      HangsThenDiffers(q + [COLON], q + [COLON], [TAB] + y, z);
      assert q + [COLON] + ([TAB] + y) == q + ([COLON, TAB] + y) && q + [COLON] + z == q + ([COLON] + z);
    } else {
      hide Fated;
      FineShed(q, q);
      TokenShed(COLON);
      ByteShed(TAB);
      ShedJoined([COLON], [COLON], [TAB], []);
      assert [COLON] + [TAB] == [COLON, TAB] && [COLON] + [] == [COLON];
      FatedBehind(h, [COLON, TAB], [COLON], y, z);
      FatedBehind(h, q, q, [COLON, TAB] + y, [COLON] + z);
    }
  }

  /**
   Minifying formatted text gives the unformatted text exactly if no string or key ends in a backslash, but for
   a string with nothing behind it but brackets.
   */
  lemma FormattedMinifiedIff(v: Json, depth: nat)
    requires Printable(v)
    ensures Minify.Minified(Text(v, true, depth)) == Text(v, false, depth) <==> !FateOf(v).Differing?
  {
    hide Minify.Minified, Text, FateOf, Sheds, Hangs, Differs, Printable;
    TextFated(v, depth);
    var t, u := Text(v, true, depth), Text(v, false, depth);
    match FateOf(v)
    case Fine => ShedIsMinified(t, u);
    case Hanging => HangsMinified(t, u);
    case Differing => DiffersNotMinified(t, u);
  }
}
