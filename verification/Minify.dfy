/** cJSON_Minify: white space and comments removed in place. */
module Minify {
  import opened Prelude
  import opened StringCodec
  import opened StringLaws

  const SLASH: byte := 47
  const STAR: byte := 42
  const LF: byte := 10

  /** The byte at `i` of a C string. */
  function Peek(s: Str, i: nat): byte {
    if i < |s| then s[i] else 0
  }

  /** The white space that is removed; the parser skips more. */
  predicate Blank(c: byte) {
    c == 32 || c == 9 || c == 13 || c == LF
  }

  /** `skip_oneline_comment`, behind the slashes. */
  function LineCommentEnd(s: Str, i: nat): (end: nat)
    requires i <= |s|
    ensures i <= end <= |s|
    decreases |s| - i
  {
    if i == |s| then i else if s[i] == LF then i + 1 else LineCommentEnd(s, i + 1)
  }

  /** `skip_multiline_comment`, behind its opening. */
  function BlockCommentEnd(s: Str, i: nat): (end: nat)
    requires i <= |s|
    ensures i <= end <= |s|
    decreases |s| - i
  {
    if i == |s| then i else if s[i] == STAR && Peek(s, i + 1) == SLASH then i + 2 else BlockCommentEnd(s, i + 1)
  }

  /** `minify_string`, behind the opening quote: every backslash before a quote escapes it. */
  function LiteralEnd(s: Str, i: nat): (end: nat)
    requires i <= |s|
    ensures i <= end <= |s| && (i < |s| ==> i < end)
    decreases |s| - i
  {
    if i == |s| then i
    else if s[i] == QUOTE then i + 1
    else if s[i] == BACKSLASH && Peek(s, i + 1) == QUOTE then LiteralEnd(s, i + 2)
    else LiteralEnd(s, i + 1)
  }

  /** Where a slash outside of literals leads. */
  function SlashEnd(s: Str, i: nat): (end: nat)
    requires i < |s|
    ensures i < end <= |s|
  {
    if Peek(s, i + 1) == SLASH then LineCommentEnd(s, i + 2)
    else if Peek(s, i + 1) == STAR then BlockCommentEnd(s, i + 2)
    else i + 1
  }

  /** What `cJSON_Minify` makes of the text from `i` on. */
  function MinifiedFrom(s: Str, i: nat): (m: Str)
    requires i <= |s|
    ensures |m| <= |s| - i
    decreases |s| - i
  {
    if i == |s| then []
    else if Blank(s[i]) then MinifiedFrom(s, i + 1)
    else if s[i] == SLASH then MinifiedFrom(s, SlashEnd(s, i))
    else if s[i] == QUOTE then s[i..LiteralEnd(s, i + 1)] + MinifiedFrom(s, LiteralEnd(s, i + 1))
    else [s[i]] + MinifiedFrom(s, i + 1)
  }

  function Minified(s: Str): Str {
    MinifiedFrom(s, 0)
  }

  // ----- in place -----

  /** The text from `r` on is still unread. */
  ghost predicate Unread(json: array<byte>, s: Str, r: nat)
    reads json
  {
    |s| < json.Length && forall i | r <= i <= |s| :: json[i] == Peek(s, i)
  }

  /** `skip_oneline_comment`. */
  method SkipOnelineComment(json: array<byte>, ghost s: Str, r: nat) returns (next: nat)
    requires NulFree(s) && Unread(json, s, r) && r + 2 <= |s|
    ensures next == LineCommentEnd(s, r + 2)
    ensures || (next == |s| && LF !in s[r + 2..])
            || (r + 2 < next <= |s| && s[next - 1] == LF && LF !in s[r + 2..next - 1])
  {
    next := r + 2;
    while json[next] != 0
      invariant r + 2 <= next <= |s| && LineCommentEnd(s, next) == LineCommentEnd(s, r + 2)
      invariant LF !in s[r + 2..next]
      decreases |s| - next
    {
      if json[next] == LF {
        return next + 1;
      }
      assert s[r + 2..next + 1] == s[r + 2..next] + [s[next]];
      next := next + 1;
    }
    EndOnly(s, next);
  }

  /** `skip_multiline_comment`. */
  method SkipMultilineComment(json: array<byte>, ghost s: Str, r: nat) returns (next: nat)
    requires NulFree(s) && Unread(json, s, r) && r + 2 <= |s|
    ensures next == BlockCommentEnd(s, r + 2)
  {
    next := r + 2;
    while json[next] != 0
      invariant r + 2 <= next <= |s| && BlockCommentEnd(s, next) == BlockCommentEnd(s, r + 2)
      decreases |s| - next
    {
      if json[next] == STAR && json[next + 1] == SLASH {
        return next + 2;
      }
      next := next + 1;
    }
    EndOnly(s, next);
  }

  lemma EndOnly(s: Str, i: nat)
    requires NulFree(s) && i <= |s|
    ensures Peek(s, i) == 0 ==> i == |s|
  {
    assert i < |s| ==> s[i] in s;
  }

  /** One byte copied from the read to the write pointer. */
  method CopyByte(json: array<byte>, ghost s: Str, next: nat, into: nat)
    requires Unread(json, s, next) && into <= next < |s|
    modifies json
    ensures Unread(json, s, next + 1) && json[..into + 1] == old(json[..into]) + [s[next]]
  {
    ghost var before := json[..into];
    json[into] := json[next];
    assert json[..into + 1] == before + [json[into]];
  }

  /** The same, for a literal that began at `r`, behind what was written `before`. */
  method CopyNext(json: array<byte>, ghost s: Str, r: nat, next: nat, into: nat, ghost before: seq<byte>)
    requires Unread(json, s, next) && r <= next < |s| && into <= next && Written(json, into, before + s[r..next])
    modifies json
    ensures Unread(json, s, next + 1) && Written(json, into + 1, before + s[r..next + 1])
  {
    CopyByte(json, s, next, into);
    Copied(before, s, r, next);
  }

  ghost predicate Written(json: array<byte>, into: nat, text: seq<byte>)
    reads json
  {
    into <= json.Length && json[..into] == text
  }

  /** `minify_string`: the literal is copied; the write pointer stays at or before the read pointer. */
  method MinifyString(json: array<byte>, ghost s: Str, r: nat, w: nat) returns (next: nat, into: nat)
    requires NulFree(s) && Unread(json, s, r) && w <= r < |s| && json[r] == QUOTE
    modifies json
    ensures next == LiteralEnd(s, r + 1) && into <= next
    ensures Unread(json, s, next) && json[..into] == old(json[..w]) + s[r..next]
  {
    UnreadAt(json, s, r);
    ghost var before := json[..w];
    assert before + s[r..r] == before && Written(json, w, before);
    hide NulFree, LiteralEnd, Unread, Peek, Written;
    CopyNext(json, s, r, r, w, before);
    next, into := r + 1, w + 1;
    while json[next] != 0
      invariant r < next <= |s| && into <= next && |s| < json.Length
      invariant Unread(json, s, next) && Written(json, into, before + s[r..next])
      invariant LiteralEnd(s, next) == LiteralEnd(s, r + 1)
      decreases |s| - next
    {
      UnreadAt(json, s, next);
      NotEnd(s, next);
      var over: bool;
      next, into, over := CopyRound(json, s, r, next, into, before);
      if over {
        WrittenIs(json, into, before + s[r..next]);
        return;
      }
    }
    WrittenIs(json, into, before + s[r..next]);
    UnreadAt(json, s, next);
    EndOnly(s, next);
    LiteralOver(s, next);
  }

  /** Its loop body; it is over behind a quote. */
  method CopyRound(json: array<byte>, ghost s: Str, r: nat, at: nat, place: nat, ghost before: seq<byte>)
    returns (next: nat, into: nat, over: bool)
    requires r <= at < |s| && place <= at && Unread(json, s, at) && Written(json, place, before + s[r..at])
    modifies json
    ensures at < next <= |s| && into <= next && Unread(json, s, next)
    ensures Written(json, into, before + s[r..next])
    ensures LiteralEnd(s, at) == if over then next else LiteralEnd(s, next)
  {
    hide LiteralEnd, Unread, Peek, Written;
    UnreadAt(json, s, at);
    UnreadAt(json, s, at + 1);
    LiteralRound(s, at);
    var c, d := json[at], json[at + 1];
    CopyNext(json, s, r, at, place, before);
    next, into, over := at + 1, place + 1, c == QUOTE;
    if c == BACKSLASH && d == QUOTE {
      NotEnd(s, next);
      CopyNext(json, s, r, next, into, before);
      next, into := next + 1, into + 1;
    }
  }

  lemma WrittenIs(json: array<byte>, into: nat, text: seq<byte>)
    requires Written(json, into, text)
    ensures into <= json.Length && json[..into] == text
  {
  }

  lemma UnreadAt(json: array<byte>, s: Str, i: nat)
    requires Unread(json, s, i) && i <= |s|
    ensures json.Length > |s| && json[i] == Peek(s, i) && (i < |s| ==> Unread(json, s, i + 1) && Peek(s, i) == s[i])
  {
  }

  lemma LiteralRound(s: Str, i: nat)
    requires i < |s|
    ensures s[i] == QUOTE ==> LiteralEnd(s, i) == i + 1
    ensures s[i] == BACKSLASH && Peek(s, i + 1) == QUOTE ==> LiteralEnd(s, i) == LiteralEnd(s, i + 2)
    ensures s[i] != QUOTE && !(s[i] == BACKSLASH && Peek(s, i + 1) == QUOTE) ==>
      LiteralEnd(s, i) == LiteralEnd(s, i + 1)
  {
  }

  lemma LiteralOver(s: Str, i: nat)
    ensures i == |s| ==> LiteralEnd(s, i) == i
  {
  }

  lemma Copied(before: seq<byte>, s: Str, r: nat, next: nat)
    requires r <= next < |s|
    ensures before + s[r..next] + [s[next]] == before + s[r..next + 1]
    ensures s[r..r] == [] && before + [] == before
  {
  }

  /** `cJSON_Minify`. */
  method MinifyInPlace(json: array<byte>, ghost s: Str)
    requires NulFree(s) && Unread(json, s, 0)
    modifies json
    ensures |Minified(s)| <= |s| && json[..|Minified(s)| + 1] == Minified(s) + [0]
  {
    hide MinifiedFrom;
    var r: nat, w: nat := 0, 0;
    assert json[..0] == [];
    while json[r] != 0
      invariant w <= r <= |s| < json.Length && Unread(json, s, r)
      invariant Minified(s) == json[..w] + MinifiedFrom(s, r)
      decreases |s| - r
    {
      NotEnd(s, r);
      r, w := MinifyStep(json, s, r, w);
    }
    EndOnly(s, r);
    NothingLeft(s);
    assert json[..w] + [] == json[..w];
    json[w] := 0;
    assert json[..w + 1] == json[..w] + [0];
  }

  /** Its loop body. */
  method MinifyStep(json: array<byte>, ghost s: Str, r: nat, w: nat) returns (next: nat, into: nat)
    requires NulFree(s) && Unread(json, s, r) && w <= r < |s|
    modifies json
    ensures r < next <= |s| && into <= next && Unread(json, s, next)
    ensures old(json[..w]) + MinifiedFrom(s, r) == json[..into] + MinifiedFrom(s, next)
  {
    hide LiteralEnd, LineCommentEnd, BlockCommentEnd, MinifiedFrom;
    MinifiedStep(s, r);
    next, into := r + 1, w;
    var c := json[r];
    if c == 32 || c == 9 || c == 13 || c == LF {
    } else if c == SLASH {
      if json[r + 1] == SLASH {
        NotEnd(s, r + 1);
        next := SkipOnelineComment(json, s, r);
      } else if json[r + 1] == STAR {
        NotEnd(s, r + 1);
        next := SkipMultilineComment(json, s, r);
      }
    } else if c == QUOTE {
      next, into := MinifyString(json, s, r, w);
    } else {
      CopyByte(json, s, r, w);
      into := w + 1;
    }
  }

  lemma NothingLeft(s: Str)
    ensures MinifiedFrom(s, |s|) == []
  {
  }

  /** One round of the loop. */
  lemma MinifiedStep(s: Str, r: nat)
    requires r < |s|
    ensures var c := s[r];
      && (Blank(c) ==> MinifiedFrom(s, r) == MinifiedFrom(s, r + 1))
      && (c == SLASH ==> MinifiedFrom(s, r) == MinifiedFrom(s, SlashEnd(s, r)))
      && (c == QUOTE ==> MinifiedFrom(s, r) == s[r..LiteralEnd(s, r + 1)] + MinifiedFrom(s, LiteralEnd(s, r + 1)))
      && (!Blank(c) && c != SLASH && c != QUOTE ==> MinifiedFrom(s, r) == [c] + MinifiedFrom(s, r + 1))
  {
    hide LiteralEnd, SlashEnd;
  }

  lemma NotEnd(s: Str, i: nat)
    requires i <= |s| && Peek(s, i) != 0
    ensures i < |s|
  {
  }

  // ----- twice is once -----

  lemma {:induction false} LiteralEndShifted(a: Str, b: Str, i: nat)
    requires i <= |b|
    ensures LiteralEnd(a + b, |a| + i) == |a| + LiteralEnd(b, i)
    decreases |b| - i
  {
    if i < |b| {
      assert (a + b)[|a| + i] == b[i] && Peek(a + b, |a| + i + 1) == Peek(b, i + 1);
      if b[i] == BACKSLASH && Peek(b, i + 1) == QUOTE {
        LiteralEndShifted(a, b, i + 2);
      } else if b[i] != QUOTE {
        LiteralEndShifted(a, b, i + 1);
      }
    }
  }

  /** A literal's end is found within it, or at the end of the text. */
  lemma {:induction false} LiteralEndWithin(s: Str, i: nat, n: nat, rest: Str)
    requires i <= n <= |s| && LiteralEnd(s, i) == n && (n < |s| ==> i < n)
    requires n == |s| ==> rest == []
    ensures LiteralEnd(s[..n] + rest, i) == n
    decreases |s| - i
  {
    var t := s[..n] + rest;
    if i < |s| {
      assert t[i] == s[i];
      if s[i] == QUOTE {
      } else if s[i] == BACKSLASH && Peek(s, i + 1) == QUOTE {
        LiteralStops(s, i + 2, n);
        assert t[i + 1] == s[i + 1];
        LiteralEndWithin(s, i + 2, n, rest);
      } else {
        LiteralStops(s, i + 1, n);
        LiteralEndWithin(s, i + 1, n, rest);
      }
    }
  }

  lemma LiteralStops(s: Str, i: nat, n: nat)
    requires i <= |s| && LiteralEnd(s, i) == n
    ensures i <= n && (n < |s| ==> i < n)
  {
  }

  /** A copied literal ends where it ended before. */
  lemma LiteralCopied(prefix: Str, s: Str, i: nat, rest: Str)
    requires i < |s| && (LiteralEnd(s, i + 1) == |s| ==> rest == [])
    ensures var n := LiteralEnd(s, i + 1);
      LiteralEnd(prefix + (s[i..n] + rest), |prefix| + 1) == |prefix| + n - i
  {
    var n := LiteralEnd(s, i + 1);
    var tail := s[i..];
    assert s == s[..i] + tail;
    LiteralEndShifted(s[..i], tail, 1);
    LiteralStops(s, i + 1, n);
    assert tail[..n - i] == s[i..n];
    hide LiteralEnd;
    LiteralEndWithin(tail, 1, n - i, rest);
    LiteralEndShifted(prefix, s[i..n] + rest, 1);
  }

  /** Minified text is left as it is. */
  lemma {:induction false} MinifiedIsFixed(prefix: Str, s: Str, i: nat)
    requires i <= |s|
    ensures MinifiedFrom(prefix + MinifiedFrom(s, i), |prefix|) == MinifiedFrom(s, i)
    decreases |s| - i
  {
    hide MinifiedFrom, LiteralEnd;
    var m := MinifiedFrom(s, i);
    var t := prefix + m;
    if i == |s| {
      NothingLeft(s);
      NothingLeft(t);
    } else {
      MinifiedStep(s, i);
      if Blank(s[i]) {
        MinifiedIsFixed(prefix, s, i + 1);
      } else if s[i] == SLASH {
        MinifiedIsFixed(prefix, s, SlashEnd(s, i));
      } else if s[i] == QUOTE {
        var n := LiteralEnd(s, i + 1);
        var literal, rest := s[i..n], MinifiedFrom(s, n);
        if n == |s| {
          NothingLeft(s);
        }
        LiteralCopied(prefix, s, i, rest);
        assert t == prefix + literal + rest;
        assert t[|prefix|] == literal[0] == QUOTE;
        MinifiedStep(t, |prefix|);
        assert t[|prefix|..|prefix + literal|] == literal;
        MinifiedIsFixed(prefix + literal, s, n);
      } else {
        var rest := MinifiedFrom(s, i + 1);
        assert t == prefix + [s[i]] + rest && t[|prefix|] == s[i];
        MinifiedStep(t, |prefix|);
        MinifiedIsFixed(prefix + [s[i]], s, i + 1);
      }
    }
  }

  /** A second minify changes nothing, for every text. */
  lemma MinifyTwice(s: Str)
    ensures Minified(Minified(s)) == Minified(s)
  {
    MinifiedIsFixed([], s, 0);
    assert [] + Minified(s) == Minified(s);
  }

  // ----- literals -----

  /** The literal ends in an escaped backslash. */
  predicate EndsInBackslash(c: Str, start: nat, end: nat) {
    start < end <= |c| && c[end - 1] == BACKSLASH
  }

  lemma {:induction false} LiteralScanned(c: Str, p: nat, end: nat)
    requires p <= end < |c| && Scan(c, p) == Some(end)
    ensures LiteralEnd(c, p) == if EndsInBackslash(c, p, end) then LiteralEnd(c, end + 1) else end + 1
    decreases end - p
  {
    if p < end {
      if c[p] != BACKSLASH {
        LiteralScanned(c, p + 1, end);
      } else {
        EscapeToken(c, p, end);
        LiteralScanned(c, p + 2, end);
        if c[p + 1] == BACKSLASH && p + 2 < end {
          NotQuoted(c, p + 2, end);
        }
      }
    }
  }

  lemma NotQuoted(c: Str, p: nat, end: nat)
    requires p < end < |c| && Scan(c, p) == Some(end)
    ensures c[p] != QUOTE
  {
  }

  /**
   `minify_string` takes exactly the literal if and only if the literal does not end in an escaped
   backslash, or nothing follows it.
   */
  lemma LiteralTakenExactly(c: Str, o: nat)
    requires o < |c| && c[o] == QUOTE && Scan(c, o + 1).Some?
    ensures var end := Scan(c, o + 1).value;
      LiteralEnd(c, o + 1) == end + 1 <==> !EndsInBackslash(c, o + 1, end) || end + 1 == |c|
  {
    var end := Scan(c, o + 1).value;
    LiteralScanned(c, o + 1, end);
  }

  /**
   A literal that ends in an escaped backslash is copied on, with all that follows, up to and with the
   next quote, which opens the next literal, or to the end of the text.
   */
  lemma SwallowsNext(c: Str, o: nat, next: nat)
    requires o < |c| && c[o] == QUOTE && Scan(c, o + 1).Some?
    requires EndsInBackslash(c, o + 1, Scan(c, o + 1).value) && Scan(c, o + 1).value < next <= |c|
    requires forall j | Scan(c, o + 1).value < j < next :: c[j] != QUOTE && c[j] != BACKSLASH
    requires next < |c| ==> c[next] == QUOTE
    ensures LiteralEnd(c, o + 1) == if next == |c| then next else next + 1
  {
    var end := Scan(c, o + 1).value;
    LiteralScanned(c, o + 1, end);
    hide Scan;
    NextQuote(c, end + 1, next);
  }

  lemma {:induction false} NextQuote(c: Str, i: nat, next: nat)
    requires i <= next <= |c| && forall j | i <= j < next :: c[j] != QUOTE && c[j] != BACKSLASH
    requires next < |c| ==> c[next] == QUOTE
    ensures LiteralEnd(c, i) == if next == |c| then next else next + 1
    decreases next - i
  {
    if i < next {
      NextQuote(c, i + 1, next);
    }
  }
}
