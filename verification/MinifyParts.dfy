/** What minifying removes, by the bytes of a text: blanks, comments and lone slashes, and nothing else. */
module MinifyParts {
  import opened Prelude
  import opened StringCodec
  import opened StringLaws
  import opened Minify

  /** A piece of a text, as `cJSON_Minify` tells them apart; a literal or comment may be cut off by the end. */
  datatype Part =
    | Literal(body: Str, closed: bool)
    | Plain(b: byte)
    | Space(b: byte)
    | LineComment(body: Str, closed: bool)
    | BlockComment(body: Str, closed: bool)
    | LoneSlash

  function PartText(p: Part): (t: Str)
    ensures t != []
  {
    match p
    case Literal(body, closed) => Ascii("\"") + body + (if closed then Ascii("\"") else [])
    case Plain(b) => [b]
    case Space(b) => [b]
    case LineComment(body, closed) => Ascii("//") + body + (if closed then Ascii("\n") else [])
    case BlockComment(body, closed) => Ascii("/*") + body + (if closed then Ascii("*/") else [])
    case LoneSlash => Ascii("/")
  }

  /** Every quote in the body of a literal has a backslash before it. */
  predicate QuotesEscaped(body: Str) {
    forall i | 0 <= i < |body| && body[i] == '"' as int :: i > 0 && body[i - 1] == '\\' as int
  }

  predicate NoClosing(body: Str) {
    forall i | 0 <= i < |body| - 1 :: !(body[i] == '*' as int && body[i + 1] == '/' as int)
  }

  predicate PartOk(p: Part) {
    match p
    case Literal(body, closed) => QuotesEscaped(body) && (closed && body != [] ==> body[|body| - 1] != '\\' as int)
    case Plain(b) => b !in Ascii(" \t\r\n/\"")
    case Space(b) => b in Ascii(" \t\r\n")
    case LineComment(body, _) => '\n' as int !in body
    case BlockComment(body, _) => NoClosing(body)
    case LoneSlash => true
  }

  /** Only the last piece is cut off, and a lone slash does not open a comment. */
  predicate PartsOk(parts: seq<Part>) {
    parts != [] ==>
      && PartOk(parts[0]) && PartsOk(parts[1..])
      && (|parts| > 1 ==>
            && (parts[0].Literal? || parts[0].LineComment? || parts[0].BlockComment? ==> parts[0].closed)
            && (parts[0].LoneSlash? ==> PartText(parts[1])[0] !in Ascii("/*")))
  }

  function PartsText(parts: seq<Part>): Str {
    if parts == [] then [] else PartText(parts[0]) + PartsText(parts[1..])
  }

  /** What minifying keeps. */
  predicate Stays(p: Part) {
    p.Literal? || p.Plain?
  }

  /** The literals and plain bytes in order. */
  function Essence(parts: seq<Part>): Str {
    if parts == [] then []
    else (if Stays(parts[0]) then PartText(parts[0]) else []) + Essence(parts[1..])
  }

  // ----- where the pieces end -----

  lemma {:induction false} LineEnds(s: Str, i: nat, end: nat)
    requires i <= end <= |s| && (forall j | i <= j < end :: s[j] != LF) && (end < |s| ==> s[end] == LF)
    ensures LineCommentEnd(s, i) == if end == |s| then end else end + 1
    decreases end - i
  {
    if i < end {
      LineEnds(s, i + 1, end);
    }
  }

  predicate Closing(s: Str, j: nat) {
    j + 1 < |s| && s[j] == STAR && s[j + 1] == SLASH
  }

  lemma {:induction false} BlockEnds(s: Str, i: nat, end: nat)
    requires i <= end <= |s| && (forall j | i <= j < end :: !Closing(s, j)) && (end < |s| ==> Closing(s, end))
    ensures BlockCommentEnd(s, i) == if end == |s| then end else end + 2
    decreases end - i
  {
    if i < end {
      assert !Closing(s, i);
      BlockEnds(s, i + 1, end);
    }
  }

  /** Behind an opening quote the quote at `j` is escaped. */
  predicate EscapedQuote(s: Str, i: nat, j: nat)
    requires j < |s|
  {
    i < j && s[j - 1] == BACKSLASH
  }

  predicate EndQuote(s: Str, i: nat, j: nat) {
    j < |s| && s[j] == QUOTE && !EscapedQuote(s, i, j)
  }

  predicate NoEndQuote(s: Str, i: nat, end: nat) {
    forall j | i <= j < end :: !EndQuote(s, i, j)
  }

  lemma {:induction false} QuoteEnds(s: Str, i: nat, end: nat)
    requires i <= end <= |s| && NoEndQuote(s, i, end) && (end < |s| ==> EndQuote(s, i, end))
    ensures LiteralEnd(s, i) == if end == |s| then end else end + 1
    decreases end - i
  {
    if i < end {
      assert !EndQuote(s, i, i);
      LiteralRound(s, i);
      hide LiteralEnd;
      var next := if s[i] == BACKSLASH && Peek(s, i + 1) == QUOTE then i + 2 else i + 1;
      if end == i + 1 < |s| {
        assert EndQuote(s, i, end);
      }
      forall j | next <= j < |s| ensures EndQuote(s, next, j) == EndQuote(s, i, j) {
      }
      QuoteEnds(s, next, end);
    }
  }

  // ----- every cut text is minified to its essence -----

  /** The piece lies in `s` from `i` on, and if it is cut off, `s` ends there. */
  ghost predicate LiesAt(s: Str, i: nat, p: Part) {
    && Occurs(s, i, PartText(p))
    && ((p.Literal? || p.LineComment? || p.BlockComment?) && !p.closed ==> i + |PartText(p)| == |s|)
  }

  /** The two or three parts of a piece's text. */
  lemma BodyAt(s: Str, i: nat, opening: Str, body: Str, closing: Str)
    requires Occurs(s, i, opening + body + closing)
    ensures Occurs(s, i, opening) && Occurs(s, i + |opening| + |body|, closing)
    ensures var start := i + |opening|; forall j | start <= j < start + |body| :: s[j] == body[j - start]
    ensures i + |opening| + |body| + |closing| <= |s|
  {
    OccursSplit(s, i, opening + body, closing);
    OccursSplit(s, i, opening, body);
    OccursAt(s, i + |opening|, body);
    hide Occurs;
    var start := i + |opening|;
    forall j | start <= j < start + |body| ensures s[j] == body[j - start] {
      assert s[start + (j - start)] == body[j - start];
    }
  }

  lemma BodyRun(s: Str, start: nat, body: Str)
    requires start + |body| <= |s| && (forall j | start <= j < start + |body| :: s[j] == body[j - start])
    requires QuotesEscaped(body)
    ensures NoEndQuote(s, start, start + |body|)
    ensures start + |body| < |s| && s[start + |body|] == QUOTE && (body != [] ==> body[|body| - 1] != BACKSLASH) ==>
      EndQuote(s, start, start + |body|)
  {
    forall j | start <= j < start + |body| ensures !EndQuote(s, start, j) {
      assert s[j] == body[j - start];
    }
  }

  lemma LiteralAt(s: Str, i: nat, p: Part)
    requires p.Literal? && PartOk(p) && LiesAt(s, i, p)
    ensures i < |s| && s[i] == QUOTE && LiteralEnd(s, i + 1) == i + |PartText(p)|
  {
    hide *;
    LiteralBytes(s, i, p);
    QuoteEnds(s, i + 1, i + 1 + |p.body|);
  }

  lemma LiteralBytes(s: Str, i: nat, p: Part)
    requires p.Literal? && PartOk(p) && LiesAt(s, i, p)
    ensures i < |s| && s[i] == QUOTE && NoEndQuote(s, i + 1, i + 1 + |p.body|)
    ensures i + |PartText(p)| <= |s| && |PartText(p)| == |p.body| + if p.closed then 2 else 1
    ensures p.closed ==> EndQuote(s, i + 1, i + 1 + |p.body|)
    ensures !p.closed ==> i + |PartText(p)| == |s|
  {
    var start, closing := i + 1, if p.closed then [QUOTE] else [];
    assert PartText(p) == [QUOTE] + p.body + closing;
    hide PartText, QuotesEscaped, EndQuote, NoEndQuote, Occurs;
    BodyAt(s, i, [QUOTE], p.body, closing);
    BodyRun(s, start, p.body);
    OneByteAt(s, i, QUOTE);
    OneByteAt(s, start + |p.body|, QUOTE);
  }

  lemma OneByteAt(s: Str, i: nat, b: byte)
    ensures Occurs(s, i, [b]) ==> i < |s| && s[i] == b
  {
    if Occurs(s, i, [b]) {
      assert s[i] == s[i..i + 1][0];
    }
  }

  lemma LineAt(s: Str, i: nat, p: Part)
    requires p.LineComment? && PartOk(p) && LiesAt(s, i, p)
    ensures i < |s| && s[i] == SLASH && SlashEnd(s, i) == i + |PartText(p)|
  {
    var start, closing := i + 2, if p.closed then [LF] else [];
    assert PartText(p) == [SLASH, SLASH] + p.body + closing;
    hide PartText;
    BodyAt(s, i, [SLASH, SLASH], p.body, closing);
    assert s[i + 1] == s[i..i + 2][1];
    forall j | start <= j < start + |p.body| ensures s[j] != LF {
      assert p.body[j - start] in p.body;
    }
    LineEnds(s, start, start + |p.body|);
  }

  lemma BlockAt(s: Str, i: nat, p: Part)
    requires p.BlockComment? && PartOk(p) && LiesAt(s, i, p)
    ensures i < |s| && s[i] == SLASH && SlashEnd(s, i) == i + |PartText(p)|
  {
    var start, closing := i + 2, if p.closed then [STAR, SLASH] else [];
    assert PartText(p) == [SLASH, STAR] + p.body + closing;
    hide PartText;
    BodyAt(s, i, [SLASH, STAR], p.body, closing);
    assert s[i + 1] == s[i..i + 2][1];
    var end := start + |p.body|;
    if p.closed {
      assert s[end + 0] == s[end..end + 2][0] && s[end + 1] == s[end..end + 2][1];
    }
    forall j | start <= j < end ensures !Closing(s, j) {
      assert s[j] == p.body[j - start];
    }
    BlockEnds(s, start, end);
  }

  /** What one piece contributes. */
  lemma PartMinified(s: Str, i: nat, p: Part)
    requires PartOk(p) && LiesAt(s, i, p)
    requires p.LoneSlash? && i + 1 < |s| ==> s[i + 1] != SLASH && s[i + 1] != STAR
    ensures i + |PartText(p)| <= |s|
    ensures var end := i + |PartText(p)|;
      MinifiedFrom(s, i) == (if Stays(p) then PartText(p) else []) + MinifiedFrom(s, end)
  {
    hide MinifiedFrom, LiteralEnd, PartText, LiesAt, SlashEnd;
    PartBytes(s, i, p);
    MinifiedStep(s, i);
    match p
    case Literal(_, _) => LiteralAt(s, i, p);
    case LineComment(_, _) => LineAt(s, i, p);
    case BlockComment(_, _) => BlockAt(s, i, p);
    case Plain(b) => BlankBytes(b);
    case Space(b) => BlankBytes(b);
    case LoneSlash => LoneSlashAt(s, i);
  }

  lemma LoneSlashAt(s: Str, i: nat)
    requires i < |s| && (i + 1 < |s| ==> s[i + 1] != SLASH && s[i + 1] != STAR)
    ensures SlashEnd(s, i) == i + 1
  {
  }

  lemma PartBytes(s: Str, i: nat, p: Part)
    requires LiesAt(s, i, p)
    ensures i + |PartText(p)| <= |s| && s[i..i + |PartText(p)|] == PartText(p) && s[i] == PartText(p)[0]
    ensures p.Plain? || p.Space? ==> PartText(p) == [p.b]
    ensures p.LoneSlash? ==> PartText(p) == [SLASH]
  {
    assert s[i] == s[i..i + |PartText(p)|][0];
  }

  lemma BlankBytes(b: byte)
    ensures b in Ascii(" \t\r\n") <==> Blank(b)
    ensures b in Ascii(" \t\r\n/\"") <==> Blank(b) || b == SLASH || b == QUOTE
    ensures b in Ascii("/*") <==> b == SLASH || b == STAR
  {
    assert Ascii(" \t\r\n") == [32, 9, 13, 10];
    assert Ascii(" \t\r\n/\"") == [32, 9, 13, 10, 47, 34];
    assert Ascii("/*") == [47, 42];
  }

  lemma PartsStep(parts: seq<Part>)
    requires PartsOk(parts) && parts != []
    ensures PartOk(parts[0]) && PartsOk(parts[1..]) && PartsText(parts) == PartText(parts[0]) + PartsText(parts[1..])
    ensures var rest := PartsText(parts[1..]);
      && (rest == [] || rest[0] !in Ascii("/*") || !parts[0].LoneSlash?)
      && (rest != [] && (parts[0].Literal? || parts[0].LineComment? || parts[0].BlockComment?) ==> parts[0].closed)
  {
    hide PartText, PartOk, Ascii;
    if |parts| > 1 {
      FirstOf(parts[1..]);
    }
  }

  lemma PartsSplit(s: Str, i: nat, parts: seq<Part>)
    requires i <= |s| && s[i..] == PartsText(parts) && PartsOk(parts) && parts != []
    ensures LiesAt(s, i, parts[0]) && s[i + |PartText(parts[0])|..] == PartsText(parts[1..])
    ensures parts[0].LoneSlash? && i + 1 < |s| ==> s[i + 1] != SLASH && s[i + 1] != STAR
  {
    assert PartText(LoneSlash) == [SLASH];
    hide PartText, PartOk, PartsText, PartsOk, Ascii;
    PartsStep(parts);
    HeadTaken(s, i, PartText(parts[0]), PartsText(parts[1..]));
    if parts[0].LoneSlash? && i + 1 < |s| {
      BlankBytes(s[i + 1]);
    }
  }

  lemma HeadTaken(s: Str, i: nat, t: Str, rest: Str)
    requires i <= |s| && s[i..] == t + rest
    ensures i + |t| <= |s| && s[i..i + |t|] == t && s[i + |t|..] == rest
    ensures rest != [] ==> i + |t| < |s| && s[i + |t|] == rest[0]
    ensures rest == [] ==> i + |t| == |s|
  {
    assert s[i..][..|t|] == s[i..i + |t|] && s[i..][|t|..] == s[i + |t|..];
  }

  lemma FirstOf(parts: seq<Part>)
    requires parts != []
    ensures PartsText(parts) != [] && PartsText(parts)[0] == PartText(parts[0])[0]
  {
    hide PartText;
  }

  /** A text that is cut into pieces is minified to its literals and plain bytes. */
  lemma {:induction false} PartsMinified(s: Str, i: nat, parts: seq<Part>)
    requires i <= |s| && s[i..] == PartsText(parts) && PartsOk(parts)
    ensures MinifiedFrom(s, i) == Essence(parts)
    decreases |parts|
  {
    hide MinifiedFrom, PartOk, PartText, LiesAt;
    if parts == [] {
      NothingLeft(s);
    } else {
      PartsSplit(s, i, parts);
      PartMinified(s, i, parts[0]);
      PartsMinified(s, i + |PartText(parts[0])|, parts[1..]);
    }
  }

  // ----- every text can be cut -----

  /** The first number from `i` on at which `p` holds, or `n`. */
  lemma First(n: nat, p: nat -> bool, i: nat) returns (k: nat)
    requires i <= n
    ensures i <= k <= n && (forall j | i <= j < k :: !p(j)) && (k < n ==> p(k))
    decreases n - i
  {
    if i == n || p(i) {
      k := i;
    } else {
      k := First(n, p, i + 1);
    }
  }

  lemma CutLiteral(s: Str, i: nat) returns (p: Part)
    requires i < |s| && s[i] == QUOTE
    ensures p.Literal? && PartOk(p) && LiesAt(s, i, p)
  {
    var start := i + 1;
    var ends := (j: nat) => EndQuote(s, start, j);
    var end := First(|s|, ends, start);
    var body, closing := s[start..end], if end < |s| then [QUOTE] else [];
    p := Literal(body, end < |s|);
    forall k | 0 <= k < |body| && body[k] == QUOTE ensures k > 0 && body[k - 1] == BACKSLASH {
      assert !ends(start + k);
    }
    assert end < |s| ==> ends(end);
    Assembled(s, i, [QUOTE], start, end, closing);
    assert PartText(p) == [QUOTE] + body + closing;
  }

  lemma Assembled(s: Str, i: nat, opening: Str, start: nat, end: nat, closing: Str)
    requires Occurs(s, i, opening) && start == i + |opening| <= end <= |s| && Occurs(s, end, closing)
    ensures Occurs(s, i, opening + s[start..end] + closing)
  {
    OccursSplit(s, i, opening, s[start..end]);
    OccursSplit(s, i, opening + s[start..end], closing);
  }

  lemma CutLine(s: Str, i: nat) returns (p: Part)
    requires i + 1 < |s| && s[i] == SLASH && s[i + 1] == SLASH
    ensures p.LineComment? && PartOk(p) && LiesAt(s, i, p)
  {
    var start := i + 2;
    var ends := (j: nat) => j < |s| && s[j] == LF;
    var end := First(|s|, ends, start);
    var body, closing := s[start..end], if end < |s| then [LF] else [];
    p := LineComment(body, end < |s|);
    forall k | 0 <= k < |body| ensures body[k] != LF {
      assert !ends(start + k);
    }
    assert end < |s| ==> ends(end);
    Assembled(s, i, [SLASH, SLASH], start, end, closing);
    assert PartText(p) == [SLASH, SLASH] + body + closing;
  }

  lemma CutBlock(s: Str, i: nat) returns (p: Part)
    requires i + 1 < |s| && s[i] == SLASH && s[i + 1] == STAR
    ensures p.BlockComment? && PartOk(p) && LiesAt(s, i, p)
  {
    var start := i + 2;
    var ends := (j: nat) => Closing(s, j);
    var end := First(|s|, ends, start);
    var body, closing := s[start..end], if end < |s| then [STAR, SLASH] else [];
    p := BlockComment(body, end < |s|);
    forall k | 0 <= k < |body| - 1 ensures !(body[k] == STAR && body[k + 1] == SLASH) {
      assert !ends(start + k);
    }
    assert end < |s| ==> ends(end);
    Assembled(s, i, [SLASH, STAR], start, end, closing);
    assert PartText(p) == [SLASH, STAR] + body + closing;
  }

  lemma CutPart(s: Str, i: nat) returns (p: Part)
    requires i < |s|
    ensures PartOk(p) && LiesAt(s, i, p)
    ensures p.LoneSlash? && i + 1 < |s| ==> s[i + 1] != SLASH && s[i + 1] != STAR
  {
    hide LiesAt, Ascii;
    var b := s[i];
    BlankBytes(b);
    if b == QUOTE {
      p := CutLiteral(s, i);
    } else if b == SLASH && i + 1 < |s| && s[i + 1] == SLASH {
      p := CutLine(s, i);
    } else if b == SLASH && i + 1 < |s| && s[i + 1] == STAR {
      p := CutBlock(s, i);
    } else {
      p := if b == SLASH then LoneSlash else if Blank(b) then Space(b) else Plain(b);
      OneByteLies(s, i, p);
    }
  }

  lemma OneByteLies(s: Str, i: nat, p: Part)
    requires i < |s| && ((p.Plain? && p.b == s[i]) || (p.Space? && p.b == s[i]) || (p.LoneSlash? && s[i] == SLASH))
    ensures LiesAt(s, i, p)
  {
    assert PartText(p) == [s[i]];
  }

  lemma {:induction false} CutFrom(s: Str, i: nat) returns (parts: seq<Part>)
    requires i <= |s|
    ensures PartsOk(parts) && PartsText(parts) == s[i..]
    decreases |s| - i
  {
    if i == |s| {
      parts := [];
    } else {
      var p := CutPart(s, i);
      PartBytes(s, i, p);
      var end := i + |PartText(p)|;
      var rest := CutFrom(s, end);
      hide PartOk, PartText;
      parts := [p] + rest;
      assert parts[1..] == rest;
      Cutting(s, i, p, rest);
    }
  }

  lemma Cutting(s: Str, i: nat, p: Part, rest: seq<Part>)
    requires i < |s| && PartOk(p) && LiesAt(s, i, p) && PartsOk(rest) && PartsText(rest) == s[i + |PartText(p)|..]
    requires p.LoneSlash? && i + 1 < |s| ==> s[i + 1] != SLASH && s[i + 1] != STAR
    ensures PartText(p) + PartsText(rest) == s[i..]
    ensures PartsOk([p] + rest)
  {
    PartBytes(s, i, p);
    assert ([p] + rest)[1..] == rest;
    hide PartOk, PartText, Ascii;
    if rest != [] {
      FirstOf(rest);
      BlankBytes(PartText(rest[0])[0]);
    }
  }

  /** Every text can be cut into pieces, and minifying keeps the literals and plain bytes in order. */
  lemma MinifiedIsEssence(s: Str)
    ensures exists parts :: PartsOk(parts) && PartsText(parts) == s
    ensures forall parts | PartsOk(parts) && PartsText(parts) == s :: Minified(s) == Essence(parts)
  {
    hide PartsOk, PartsText, Essence, MinifiedFrom;
    assert s[0..] == s;
    var cut := CutFrom(s, 0);
    forall parts | PartsOk(parts) && PartsText(parts) == s ensures Minified(s) == Essence(parts) {
      PartsMinified(s, 0, parts);
    }
  }
}
