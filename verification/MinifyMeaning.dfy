/**
 How an accepted text and its minified form are parsed side by side. Outside of literals, a place in the
 text corresponds to a place in the minified text from which the rest of the text, minified, follows. White
 space, words, numbers and lists lead from corresponding places to corresponding places and to the same
 values. So does a literal none of whose bytes minifying drops; a literal that loses one is decoded to less.
 */
module MinifyMeaning {
  import opened Prelude
  import opened Decimal
  import opened Json
  import opened StringCodec
  import opened StringLaws
  import opened Parser
  import opened PrintText
  import opened Minify

  // ----- what minifying keeps -----

  /** Where `cJSON_Minify` is: outside of what it takes for a literal, inside, or at a quote it takes for escaped. */
  datatype Mode = Outside | Inside | Forced

  function NextMode(s: Str, i: nat, mode: Mode): Mode
    requires i < |s|
  {
    match mode
    case Outside => if s[i] == QUOTE then Inside else Outside
    case Inside =>
      if s[i] == QUOTE then Outside
      else if s[i] == BACKSLASH && Peek(s, i + 1) == QUOTE then Forced
      else Inside
    case Forced => Inside
  }

  predicate Drops(s: Str, i: nat, mode: Mode)
    requires i < |s|
  {
    mode.Outside? && (Blank(s[i]) || s[i] == SLASH)
  }

  /** What minifying yields from `i` on. */
  function Rest(s: Str, i: nat, mode: Mode): Str
    requires i <= |s|
    decreases |s| - i
  {
    match mode
    case Outside => MinifiedFrom(s, i)
    case Inside => s[i..LiteralEnd(s, i)] + MinifiedFrom(s, LiteralEnd(s, i))
    case Forced => if i == |s| then [] else [s[i]] + Rest(s, i + 1, Inside)
  }

  lemma RestOutside(s: Str, i: nat)
    requires i < |s|
    ensures !Drops(s, i, Outside) ==> Rest(s, i, Outside) == [s[i]] + Rest(s, i + 1, NextMode(s, i, Outside))
    ensures Blank(s[i]) ==> Rest(s, i, Outside) == Rest(s, i + 1, Outside)
  {
    MinifiedStep(s, i);
    hide MinifiedFrom, LiteralEnd;
    if s[i] == QUOTE {
      OneTaken(s, i, LiteralEnd(s, i + 1));
    }
  }

  lemma RestInside(s: Str, i: nat)
    requires i < |s|
    ensures Rest(s, i, Inside) == [s[i]] + Rest(s, i + 1, NextMode(s, i, Inside))
  {
    LiteralRound(s, i);
    hide MinifiedFrom, LiteralEnd;
    var end := LiteralEnd(s, i);
    OneTaken(s, i, end);
    if s[i] == BACKSLASH && Peek(s, i + 1) == QUOTE {
      OneTaken(s, i + 1, end);
    } else if s[i] == QUOTE {
      assert s[i + 1..end] == [];
    }
  }

  lemma OneTaken(s: Str, i: nat, end: nat)
    requires i < end <= |s|
    ensures forall t: Str :: s[i..end] + t == [s[i]] + (s[i + 1..end] + t)
  {
  }

  /** One byte is kept, or it is dropped; for a slash that depends on what follows. */
  lemma RestStep(s: Str, i: nat, mode: Mode)
    requires i < |s|
    ensures !Drops(s, i, mode) ==> Rest(s, i, mode) == [s[i]] + Rest(s, i + 1, NextMode(s, i, mode))
    ensures Drops(s, i, mode) && s[i] != SLASH ==> Rest(s, i, mode) == Rest(s, i + 1, NextMode(s, i, mode))
  {
    RestOutside(s, i);
    RestInside(s, i);
  }

  lemma RestOver(s: Str)
    ensures forall mode :: Rest(s, |s|, mode) == []
  {
    NothingLeft(s);
    LiteralOver(s, |s|);
  }

  /** How many of the bytes from `i` to `n` are dropped. */
  function Loss(s: Str, i: nat, n: nat, mode: Mode): nat
    requires i <= n <= |s|
    decreases n - i
  {
    if i == n then 0 else (if Drops(s, i, mode) then 1 else 0) + Loss(s, i + 1, n, NextMode(s, i, mode))
  }

  function ModeAfter(s: Str, i: nat, n: nat, mode: Mode): Mode
    requires i <= n <= |s|
    decreases n - i
  {
    if i == n then mode else ModeAfter(s, i + 1, n, NextMode(s, i, mode))
  }

  /** Bytes none of which is dropped are copied. */
  lemma {:induction false} RestThrough(s: Str, i: nat, n: nat, mode: Mode)
    requires i <= n <= |s| && Loss(s, i, n, mode) == 0
    ensures Rest(s, i, mode) == s[i..n] + Rest(s, n, ModeAfter(s, i, n, mode))
    decreases n - i
  {
    hide Rest;
    if i < n {
      RestStep(s, i, mode);
      RestThrough(s, i + 1, n, NextMode(s, i, mode));
      assert s[i..n] == [s[i]] + s[i + 1..n];
    }
  }

  /** From `i` on, outside of literals, minifying drops no byte of a literal. */
  predicate LiteralsKept(s: Str, i: nat, mode: Mode)
    decreases |s| - i
  {
    i < |s| ==>
      if s[i] != QUOTE then LiteralsKept(s, i + 1, NextMode(s, i, mode))
      else
        var end := Scan(s, i + 1);
        end.Some? ==>
          && Loss(s, i, end.value + 1, mode) == 0
          && LiteralsKept(s, end.value + 1, ModeAfter(s, i, end.value + 1, mode))
  }

  /** Minifying drops no byte of a literal. */
  predicate Kept(s: Str) {
    LiteralsKept(s, 0, Outside)
  }

  /** The text with its terminating NUL, as the parser gets it. */
  function Terminated(s: Str): (c: Str)
    ensures |c| == |s| + 1 && c[|s|] == 0 && forall i | 0 <= i < |s| :: c[i] == s[i]
  {
    s + [0]
  }

  /** Of the bytes from `i` to `n`, none that is dropped is a slash. */
  predicate SlashesKept(s: Str, i: nat, n: nat, mode: Mode)
    requires i <= n <= |s|
    decreases n - i
  {
    i < n ==> (Drops(s, i, mode) ==> s[i] != SLASH) && SlashesKept(s, i + 1, n, NextMode(s, i, mode))
  }

  /**
   From `i` on no literal is decoded to a string with a NUL, which would cut it short, and minifying
   drops nothing but white space from literals.
   */
  predicate BlanksOnly(s: Str, i: nat, mode: Mode)
    decreases |s| - i
  {
    i < |s| ==>
      if s[i] != QUOTE then BlanksOnly(s, i + 1, NextMode(s, i, mode))
      else
        var end := Scan(s, i + 1);
        end.Some? ==>
          var bytes := Decode(Terminated(s), i + 1, end.value);
          && (bytes.Some? ==> NulFree(bytes.value)) && SlashesKept(s, i, end.value + 1, mode)
          && BlanksOnly(s, end.value + 1, ModeAfter(s, i, end.value + 1, mode))
  }

  /** Outside of literals, `o` in the text corresponds to `q` in the minified text. */
  ghost predicate Related(s: Str, m: Str, o: nat, q: nat) {
    NulFree(s) && exists mode :: RelatedIn(s, m, o, q, mode)
  }

  ghost predicate RelatedIn(s: Str, m: Str, o: nat, q: nat, mode: Mode) {
    && o <= |s| && q <= |m| && m[q..] == Rest(s, o, mode)
    && LiteralsKept(s, o, mode) == Kept(s)
    && (Kept(s) || BlanksOnly(s, o, mode))
  }

  // ----- white space -----

  lemma SkipOne(s: Str, o: nat)
    requires o < |s|
    ensures s[o] <= 32 ==> Skip(Terminated(s), o) == Skip(Terminated(s), o + 1)
    ensures s[o] > 32 ==> Skip(Terminated(s), o) == o
  {
  }

  lemma SkipEnd(s: Str)
    ensures Skip(Terminated(s), |s|) == |s|
  {
    var c := Terminated(s);
    assert SkipBlank(c, |s| + 1) == |s| + 1;
  }

  /** What the minified text has at a position. */
  lemma RelatedHead(s: Str, m: Str, o: nat, q: nat)
    requires Related(s, m, o, q)
    ensures o == |s| ==> q == |m|
    ensures o < |s| && Blank(s[o]) ==>
      Related(s, m, o + 1, q) || (q < |m| && m[q] == s[o] && Related(s, m, o + 1, q + 1))
    ensures o < |s| && !Blank(s[o]) && s[o] != SLASH ==> q < |m| && m[q] == s[o]
    ensures o < |s| && !Blank(s[o]) && s[o] != SLASH && s[o] != QUOTE ==> Related(s, m, o + 1, q + 1)
  {
    var mode :| RelatedIn(s, m, o, q, mode);
    hide Rest, Scan, Loss, NulFree, Kept;
    if o == |s| {
      RestOver(s);
    } else {
      RestStep(s, o, mode);
      if m[q..] != [] {
        assert m[q..][0] == m[q] && m[q..][1..] == m[q + 1..];
      }
      if s[o] != QUOTE && s[o] != SLASH {
        assert RelatedIn(s, m, o + 1, if Drops(s, o, mode) then q else q + 1, NextMode(s, o, mode));
      }
    }
  }

  /** Skipping white space leads to corresponding positions with the same byte. */
  lemma {:induction false} SkipRelated(s: Str, m: Str, o: nat, q: nat)
    requires Related(s, m, o, q) && Terminated(s)[Skip(Terminated(s), o)] != SLASH
    ensures var p, r := Skip(Terminated(s), o), Skip(Terminated(m), q);
      Related(s, m, p, r) && Terminated(m)[r] == Terminated(s)[p]
    decreases |s| - o
  {
    hide Skip, Related;
    RelatedBounds(s, m, o, q);
    RelatedHead(s, m, o, q);
    SkipEnd(s);
    SkipEnd(m);
    if o < |s| {
      SkipOne(s, o);
      if q < |m| {
        SkipOne(m, q);
      }
      if s[o] <= 32 {
        if Blank(s[o]) && Related(s, m, o + 1, q) {
          SkipRelated(s, m, o + 1, q);
        } else {
          SkipRelated(s, m, o + 1, q + 1);
        }
      }
    }
  }

  lemma RelatedBounds(s: Str, m: Str, o: nat, q: nat)
    requires Related(s, m, o, q)
    ensures o <= |s| && q <= |m|
  {
  }

  /** Bytes that minifying copies one by one. */
  predicate Plain(b: byte) {
    b > 32 && b != SLASH && b != QUOTE
  }

  lemma {:induction false} RunRelated(s: Str, m: Str, o: nat, q: nat, n: nat)
    requires Related(s, m, o, q) && o + n <= |s| && forall i | o <= i < o + n :: Plain(s[i])
    ensures Related(s, m, o + n, q + n) && q + n <= |m| && m[q..q + n] == s[o..o + n]
    decreases n
  {
    hide Related;
    RelatedBounds(s, m, o, q);
    if n > 0 {
      RelatedHead(s, m, o, q);
      RunRelated(s, m, o + 1, q + 1, n - 1);
      assert m[q..q + n] == [m[q]] + m[q + 1..q + n];
      assert s[o..o + n] == [s[o]] + s[o + 1..o + n];
    }
  }

  // ----- literals -----

  lemma {:induction false} ScanInText(s: Str, i: nat)
    requires i <= |s| && Scan(Terminated(s), i).Some?
    ensures Scan(s, i) == Scan(Terminated(s), i)
    decreases |s| - i
  {
    var c := Terminated(s);
    if i < |s| {
      if c[i] == BACKSLASH {
        ScanInText(s, i + 2);
      } else if c[i] != QUOTE {
        ScanInText(s, i + 1);
      }
    }
  }

  /** The same bytes are scanned and decoded alike. */
  lemma {:induction false} SameScan(c: Str, d: Str, p: nat, shift: int, end: nat)
    requires p <= end < |c| && 0 <= p + shift && end + shift < |d| && Scan(c, p) == Some(end)
    requires forall j | p <= j <= end :: d[j + shift] == c[j]
    ensures Scan(d, p + shift) == Some(end + shift)
    decreases end - p
  {
    if p < end {
      if c[p] == BACKSLASH {
        EscapeToken(c, p, end);
        assert d[p + shift] == c[p];
        SameScan(c, d, p + 2, shift, end);
      } else {
        PlainToken(c, p, end);
        assert d[p + shift] == c[p];
        SameScan(c, d, p + 1, shift, end);
      }
    } else {
      assert d[end + shift] == c[end];
    }
  }

  lemma SameHex(c: Str, d: Str, p: nat, shift: int, end: nat)
    requires p + 4 <= end < |c| && 0 <= p + shift && end + shift < |d|
    requires forall j | p <= j <= end :: d[j + shift] == c[j]
    ensures Hex4(d, p + shift) == Hex4(c, p)
  {
    assert d[p + shift] == c[p] && d[p + 1 + shift] == c[p + 1] && d[p + 2 + shift] == c[p + 2]
        && d[p + 3 + shift] == c[p + 3];
  }

  lemma SameUtf16(c: Str, d: Str, p: nat, shift: int, end: nat)
    requires p < end < |c| && 0 <= p + shift && end + shift < |d|
    requires forall j | p <= j <= end :: d[j + shift] == c[j]
    ensures Utf16At(d, p + shift, end + shift) == Utf16At(c, p, end)
  {
    hide Hex4, Utf8.Encoded;
    if end - p >= 6 {
      SameHex(c, d, p + 2, shift, end);
      if end - (p + 6) >= 6 {
        assert d[p + 6 + shift] == c[p + 6] && d[p + 7 + shift] == c[p + 7];
        SameHex(c, d, p + 8, shift, end);
      }
    }
  }

  lemma SameToken(c: Str, d: Str, p: nat, shift: int, end: nat)
    requires p < end < |c| && 0 <= p + shift && end + shift < |d|
    requires forall j | p <= j <= end :: d[j + shift] == c[j]
    ensures TokenAt(d, p + shift, end + shift) == TokenAt(c, p, end)
  {
    hide Utf16At;
    assert d[p + shift] == c[p] && d[p + 1 + shift] == c[p + 1];
    SameUtf16(c, d, p, shift, end);
  }

  lemma {:induction false} SameDecode(c: Str, d: Str, p: nat, shift: int, end: nat)
    requires end < |c| && 0 <= p + shift && 0 <= end + shift < |d|
    requires forall j | p <= j <= end :: d[j + shift] == c[j]
    ensures Decode(d, p + shift, end + shift) == Decode(c, p, end)
    decreases end - p
  {
    hide TokenAt;
    if p < end {
      SameToken(c, d, p, shift, end);
      var t := TokenAt(c, p, end);
      if t.Some? {
        SameDecode(c, d, p + t.value.length, shift, end);
      }
    }
  }

  lemma SameString(c: Str, d: Str, o: nat, q: nat, end: nat)
    requires o < end < |c| && q + end - o < |d| && c[o] == QUOTE && Scan(c, o + 1) == Some(end)
    requires d[q..q + (end + 1 - o)] == c[o..end + 1] && StringAt(c, o).Some?
    ensures StringAt(d, q) == Some(Parsed(StringAt(c, o).value.value, q + end + 1 - o))
  {
    hide *;
    SliceShift(c, d, o, q, end + 1 - o);
    SameShifted(c, d, o, q - o, end);
  }

  lemma SameShifted(c: Str, d: Str, o: nat, shift: int, end: nat)
    requires o < end < |c| && 0 <= o + shift && end + shift < |d|
    requires c[o] == QUOTE && Scan(c, o + 1) == Some(end) && StringAt(c, o).Some?
    requires forall j | o <= j <= end :: d[j + shift] == c[j]
    ensures StringAt(d, o + shift) == Some(Parsed(StringAt(c, o).value.value, end + shift + 1))
  {
    hide *;
    assert d[o + shift] == c[o];
    assert o + 1 + shift == o + shift + 1;
    SameScan(c, d, o + 1, shift, end);
    SameDecode(c, d, o + 1, shift, end);
    StringIs(c, o, end);
    StringIs(d, o + shift, end + shift);
  }

  lemma StringIs(c: Str, o: nat, end: nat)
    requires o < end < |c| && c[o] == QUOTE && Scan(c, o + 1) == Some(end)
    ensures var bytes := Decode(c, o + 1, end);
      StringAt(c, o) == if bytes.None? then None else Some(Parsed(CString(bytes.value), end + 1))
  {
    hide Scan, Decode, CString;
  }

  lemma SliceShift(c: Str, d: Str, o: nat, q: nat, n: nat)
    requires o + n <= |c| && q + n <= |d| && d[q..q + n] == c[o..o + n]
    ensures forall j | o <= j < o + n :: d[j + (q - o)] == c[j]
  {
    forall j | o <= j < o + n ensures d[j + (q - o)] == c[j] {
      assert d[q..q + n][j - o] == c[o..o + n][j - o];
    }
  }

  /** What a parse from `q` of the minified text has to give, for a parse in the text. */
  ghost predicate Same<T>(s: Str, m: Str, r: Parsed<T>, t: Option<Parsed<T>>) {
    t.Some? && t.value.value == r.value && Related(s, m, r.next, t.value.next)
  }

  /** It does so, unless minifying drops bytes of literals; then it may give nothing or another value instead. */
  ghost predicate Alike<T>(s: Str, m: Str, r: Parsed<T>, t: Option<Parsed<T>>) {
    Same(s, m, r, t) || (!Kept(s) && (t.Some? ==> t.value.value != r.value))
  }

  /** A string literal is parsed alike. */
  lemma StringRelated(s: Str, m: Str, o: nat, q: nat)
    requires Related(s, m, o, q) && StringAt(Terminated(s), o).Some?
    ensures Alike(s, m, StringAt(Terminated(s), o).value, StringAt(Terminated(m), q))
    ensures StringAt(Terminated(m), q).Some? ==> StringAt(Terminated(m), q).value.next > q
  {
    var mode :| RelatedIn(s, m, o, q, mode);
    assert NulFree(s) && o <= |s|;
    hide *;
    StringRelatedIn(s, m, o, q, mode);
  }

  lemma StringRelatedIn(s: Str, m: Str, o: nat, q: nat, mode: Mode)
    requires NulFree(s) && o <= |s| && RelatedIn(s, m, o, q, mode) && StringAt(Terminated(s), o).Some?
    ensures Alike(s, m, StringAt(Terminated(s), o).value, StringAt(Terminated(m), q))
    ensures StringAt(Terminated(m), q).Some? ==> StringAt(Terminated(m), q).value.next > q
  {
    var c, d := Terminated(s), Terminated(m);
    hide RelatedIn, Related, StringAt, Scan, Decode, Loss, NulFree, Kept;
    StringNext(c, o);
    assert o < |s|;
    ScanInText(s, o + 1);
    if StringAt(d, q).Some? {
      StringNext(d, q);
    }
    var end := Scan(s, o + 1).value;
    if Loss(s, o, end + 1, mode) == 0 {
      LiteralCopiedWhole(s, m, o, q, end, mode);
      CopiedParsed(s, m, o, q, end);
    } else {
      LiteralCut(s, m, o, q, end, mode);
    }
  }

  lemma CopiedParsed(s: Str, m: Str, o: nat, q: nat, end: nat)
    requires o < end < |s| && s[o] == QUOTE && Scan(Terminated(s), o + 1) == Some(end)
    requires var n := end + 1 - o; q + n <= |m| && m[q..q + n] == s[o..end + 1]
    requires StringAt(Terminated(s), o).Some?
    ensures StringAt(Terminated(m), q)
         == Some(Parsed(StringAt(Terminated(s), o).value.value, q + end + 1 - o))
  {
    hide StringAt, Scan;
    var c, d, n := Terminated(s), Terminated(m), end + 1 - o;
    assert d[q..q + n] == m[q..q + n] == s[o..o + n] == c[o..end + 1];
    SameString(c, d, o, q, end);
  }

  /** A literal that loses no byte is copied as a whole. */
  lemma LiteralCopiedWhole(s: Str, m: Str, o: nat, q: nat, end: nat, mode: Mode)
    requires NulFree(s) && RelatedIn(s, m, o, q, mode) && o < |s| && s[o] == QUOTE
    requires Scan(s, o + 1) == Some(end) && Loss(s, o, end + 1, mode) == 0
    ensures var n := end + 1 - o;
      q + n <= |m| && m[q..q + n] == s[o..end + 1] && Related(s, m, end + 1, q + n)
  {
    hide Rest, Scan, Loss, ModeAfter, Decode, Kept, SlashesKept;
    RestThrough(s, o, end + 1, mode);
    var after := ModeAfter(s, o, end + 1, mode);
    TakenOff(m, q, s[o..end + 1], Rest(s, end + 1, after));
    assert RelatedIn(s, m, end + 1, q + (end + 1 - o), after);
  }

  // ----- literals that lose bytes -----

  /** Where no slash is dropped, nothing but white space is. */
  lemma {:induction false} VisibleKept(s: Str, i: nat, n: nat, mode: Mode)
    requires i <= n <= |s| && SlashesKept(s, i, n, mode) && forall j | i <= j < n :: !Blank(s[j])
    ensures Loss(s, i, n, mode) == 0
    decreases n - i
  {
    hide NextMode;
    if i < n {
      VisibleKept(s, i + 1, n, NextMode(s, i, mode));
    }
  }

  lemma {:induction false} LossSplit(s: Str, i: nat, k: nat, n: nat, mode: Mode)
    requires i <= k <= n <= |s|
    ensures Loss(s, i, n, mode) == Loss(s, i, k, mode) + Loss(s, k, n, ModeAfter(s, i, k, mode))
    decreases k - i
  {
    hide NextMode, Drops;
    if i < k {
      LossSplit(s, i + 1, k, n, NextMode(s, i, mode));
    }
  }

  /** An escape that yields no NUL. */
  ghost predicate Escape(c: Str, p: nat, end: nat) {
    && p < end < |c| && Scan(c, p) == Some(end) && c[p] == BACKSLASH
    && TokenAt(c, p, end).Some? && NulFree(TokenAt(c, p, end).value.bytes)
  }

  lemma HexVisible(c: Str, i: nat)
    requires i + 4 <= |c| && FourHex(c, i)
    ensures forall j | i <= j < i + 4 :: !Blank(c[j])
  {
  }

  lemma NulCode(c: Str, i: nat)
    requires i + 4 <= |c| && NulFree(Utf8.Encoded(Hex4(c, i)))
    ensures FourHex(c, i)
  {
  }

  /** Its bytes are visible, and the first pass sees its end too. */
  lemma EscapeVisible(c: Str, p: nat, end: nat)
    requires Escape(c, p, end)
    ensures var n := TokenAt(c, p, end).value.length;
      && p + n <= end && Scan(c, p + n) == Some(end)
      && forall j | p <= j < p + n :: !Blank(c[j])
  {
    EscapeToken(c, p, end);
    if c[p + 1] == LETTER_U {
      hide Scan, Utf16At;
      var t := TokenAt(c, p, end).value;
      assert Utf16At(c, p, end) == Some(t);
      UnicodeVisible(c, p, end, t);
    }
  }

  lemma UnicodeVisible(c: Str, p: nat, end: nat, t: Token)
    requires p < end < |c| && Scan(c, p + 2) == Some(end) && c[p] == BACKSLASH && c[p + 1] == LETTER_U
    requires Utf16At(c, p, end) == Some(t) && NulFree(t.bytes)
    ensures p + t.length <= end && Scan(c, p + t.length) == Some(end)
    ensures forall j | p <= j < p + t.length :: !Blank(c[j])
  {
    hide Scan, Utf8.Encoded, Hex4, FourHex, NulFree;
    if !HighSurrogate(Hex4(c, p + 2)) {
      NulCode(c, p + 2);
      HexScan(c, p + 2);
      HexVisible(c, p + 2);
    } else {
      HexNonzero(c, p + 2);
      HexScan(c, p + 2);
      HexVisible(c, p + 2);
      EscapeToken(c, p + 6, end);
      HexNonzero(c, p + 8);
      HexScan(c, p + 8);
      HexVisible(c, p + 8);
    }
  }

  /** Copied, it is the same token, in a literal that ends behind it. */
  lemma EscapeCopied(c: Str, d: Str, p: nat, r: nat, end: nat)
    requires Escape(c, p, end)
    requires var n := TokenAt(c, p, end).value.length;
      p + n <= end && r + n < |d| && d[r..r + n] == c[p..p + n]
    ensures var n := TokenAt(c, p, end).value.length;
      && Scan(d, r) == Scan(d, r + n)
      && forall e | r + n <= e < |d| :: TokenAt(d, r, e) == TokenAt(c, p, end)
  {
    var n := TokenAt(c, p, end).value.length;
    EscapeToken(c, p, end);
    SliceShift(c, d, p, r, n);
    assert d[p + (r - p)] == c[p] && d[p + 1 + (r - p)] == c[p + 1];
    EscapeSkipped(d, r);
    if c[p + 1] == LETTER_U {
      hide Scan, Utf8.Encoded, Hex4, FourHex;
      UnicodeCopied(c, d, p, r, end);
    }
  }

  lemma UnicodeCopied(c: Str, d: Str, p: nat, r: nat, end: nat)
    requires Escape(c, p, end) && c[p + 1] == LETTER_U
    requires var n := TokenAt(c, p, end).value.length;
      && p + n <= end && r + n < |d|
      && forall j | p <= j < p + n :: d[j + (r - p)] == c[j]
    ensures var n := TokenAt(c, p, end).value.length;
      && Scan(d, r + 2) == Scan(d, r + n)
      && forall e | r + n <= e < |d| :: Utf16At(d, r, e) == Utf16At(c, p, end)
  {
    hide Scan, Utf8.Encoded, Hex4, FourHex;
    HexCopied(c, d, p + 2, r - p);
    if !HighSurrogate(Hex4(c, p + 2)) {
      NulCode(c, p + 2);
      HexScan(d, r + 2);
    } else {
      HexNonzero(c, p + 2);
      HexScan(d, r + 2);
      assert d[p + 6 + (r - p)] == c[p + 6] && d[p + 7 + (r - p)] == c[p + 7];
      EscapeSkipped(d, r + 6);
      HexCopied(c, d, p + 8, r - p);
      HexNonzero(c, p + 8);
      HexScan(d, r + 8);
    }
  }

  lemma EscapeSkipped(d: Str, r: nat)
    requires r + 2 <= |d| && d[r] == BACKSLASH
    ensures Scan(d, r) == Scan(d, r + 2)
  {
  }

  /** A literal without NULs that loses no slash is read from `p` in the text, and from `r` in the minified text. */
  ghost predicate Sieving(s: Str, m: Str, p: nat, r: nat, end: nat, mode: Mode) {
    var c := Terminated(s);
    && p <= end < |s| && r <= |m| && m[r..] == Rest(s, p, mode) && SlashesKept(s, p, end + 1, mode)
    && Scan(c, p) == Some(end) && Decode(c, p, end).Some? && NulFree(Decode(c, p, end).value)
  }

  /** Each byte it loses leaves the string a byte shorter. */
  ghost predicate Sieved(s: Str, m: Str, p: nat, r: nat, end: nat, mode: Mode)
    requires Sieving(s, m, p, r, end, mode)
  {
    var d, loss := Terminated(m), Loss(s, p, end + 1, mode);
    && loss <= end - p && r + (end - p) - loss < |m|
    && var e := r + (end - p) - loss;
       && Scan(d, r) == Some(e) && Decode(d, r, e).Some?
       && |Decode(d, r, e).value| + loss == |Decode(Terminated(s), p, end).value|
  }

  lemma {:induction false} LiteralSieved(s: Str, m: Str, p: nat, r: nat, end: nat, mode: Mode)
    requires Sieving(s, m, p, r, end, mode)
    ensures Sieved(s, m, p, r, end, mode)
    decreases end - p
  {
    hide *;
    SievingBounds(s, m, p, r, end, mode);
    var c, next := Terminated(s), NextMode(s, p, mode);
    if c[p] != BACKSLASH || p == end {
      PlainRead(s, m, p, r, end, mode);
      if p < end {
        LiteralSieved(s, m, p + 1, if Drops(s, p, mode) then r else r + 1, end, next);
      }
      PlainSieved(s, m, p, r, end, mode);
    } else {
      EscapeRead(s, m, p, r, end, mode);
      EscapeWithin(c, p, end);
      var n := TokenAt(c, p, end).value.length;
      LiteralSieved(s, m, p + n, r + n, end, ModeAfter(s, p, p + n, mode));
      EscapeSieved(s, m, p, r, end, mode);
    }
  }

  lemma SievingBounds(s: Str, m: Str, p: nat, r: nat, end: nat, mode: Mode)
    requires Sieving(s, m, p, r, end, mode)
    ensures p <= end < |s| && r <= |m| && Terminated(s)[p] == s[p]
  {
    hide Scan, Decode, Rest;
  }

  lemma {:induction false} SlashesSplit(s: Str, i: nat, k: nat, n: nat, mode: Mode)
    requires i <= k <= n <= |s|
    ensures SlashesKept(s, i, n, mode)
       <==> SlashesKept(s, i, k, mode) && SlashesKept(s, k, n, ModeAfter(s, i, k, mode))
    decreases k - i
  {
    hide NextMode, Drops;
    if i < k {
      SlashesSplit(s, i + 1, k, n, NextMode(s, i, mode));
    }
  }

  lemma HeadOff(m: Str, r: nat, b: byte, rest: Str)
    requires r <= |m| && m[r..] == [b] + rest
    ensures r < |m| && m[r] == b && m[r + 1..] == rest
  {
    assert m[r..][0] == m[r] && m[r..][1..] == m[r + 1..];
  }

  lemma PlainRead(s: Str, m: Str, p: nat, r: nat, end: nat, mode: Mode)
    requires Sieving(s, m, p, r, end, mode) && (s[p] != BACKSLASH || p == end)
    ensures !Drops(s, p, mode) ==> r < |m| && m[r] == s[p]
    ensures p == end ==> !Drops(s, p, mode)
    ensures p < end ==>
      Sieving(s, m, p + 1, if Drops(s, p, mode) then r else r + 1, end, NextMode(s, p, mode))
  {
    RestStep(s, p, mode);
    hide Rest;
    if !Drops(s, p, mode) {
      HeadOff(m, r, s[p], Rest(s, p + 1, NextMode(s, p, mode)));
    }
    if p < end {
      PlainToken(Terminated(s), p, end);
    }
  }

  lemma PlainSieved(s: Str, m: Str, p: nat, r: nat, end: nat, mode: Mode)
    requires Sieving(s, m, p, r, end, mode) && (s[p] != BACKSLASH || p == end)
    requires !Drops(s, p, mode) ==> r < |m| && m[r] == s[p]
    requires p == end ==> !Drops(s, p, mode)
    requires p < end ==>
      var q := if Drops(s, p, mode) then r else r + 1;
      Sieving(s, m, p + 1, q, end, NextMode(s, p, mode)) && Sieved(s, m, p + 1, q, end, NextMode(s, p, mode))
    ensures Sieved(s, m, p, r, end, mode)
  {
    hide Rest, Drops, NextMode, NulFree, Decode, Scan, Loss;
    LossStep(s, p, end + 1, mode);
    var c, d := Terminated(s), Terminated(m);
    ReadPlain(c, p, end);
    if !Drops(s, p, mode) {
      assert d[r] == c[p];
      ByteKept(c, d, p, r, end, r + (end - p) - Loss(s, p, end + 1, mode));
    }
  }

  /** A byte that is kept is read in both texts. */
  lemma ByteKept(c: Str, d: Str, p: nat, r: nat, end: nat, e: nat)
    requires p <= end < |c| && r <= e < |d| && d[r] == c[p] && (c[p] != BACKSLASH || p == end)
    requires Scan(c, p) == Some(end)
    requires if p == end then r == e else r < e && Scan(d, r + 1) == Some(e) && Decode(d, r + 1, e).Some?
    ensures Scan(d, r) == Some(e)
    ensures Decode(d, r, e) == if p == end then Some([]) else Some([d[r]] + Decode(d, r + 1, e).value)
  {
    hide Decode, Scan;
    ReadPlain(c, p, end);
    ReadPlain(d, r, e);
    if p < end {
      ScanPlain(d, r);
    } else {
      QuoteFound(c, p);
      ScanQuote(d, r);
    }
  }

  lemma QuoteFound(c: Str, p: nat)
    requires p < |c| && Scan(c, p) == Some(p)
    ensures c[p] == QUOTE
  {
  }

  lemma LossStep(s: Str, p: nat, n: nat, mode: Mode)
    requires p < n <= |s|
    ensures Loss(s, p, n, mode) == (if Drops(s, p, mode) then 1 else 0) + Loss(s, p + 1, n, NextMode(s, p, mode))
    ensures p + 1 == n ==> Loss(s, p + 1, n, NextMode(s, p, mode)) == 0
  {
  }

  /** The loops at a byte that is no backslash. */
  lemma ReadPlain(c: Str, p: nat, end: nat)
    requires p <= end < |c| && (c[p] != BACKSLASH || p == end)
    ensures p == end ==> Decode(c, p, end) == Some([])
    ensures p < end && Scan(c, p) == Some(end) ==> Scan(c, p + 1) == Some(end) && c[p] != QUOTE
    ensures p < end ==>
      var rest := Decode(c, p + 1, end);
      Decode(c, p, end) == if rest.None? then None else Some([c[p]] + rest.value)
  {
    if p < end && Scan(c, p) == Some(end) {
      PlainToken(c, p, end);
    }
    hide Scan;
  }

  lemma ScanPlain(d: Str, r: nat)
    requires r < |d|
    ensures d[r] != QUOTE && d[r] != BACKSLASH ==> Scan(d, r) == Scan(d, r + 1)
  {
  }

  lemma ScanQuote(d: Str, r: nat)
    requires r < |d|
    ensures d[r] == QUOTE ==> Scan(d, r) == Some(r)
  {
  }

  /** The escape a decoded literal begins with. */
  lemma EscapeFirst(c: Str, p: nat, end: nat)
    requires p < end < |c| && Scan(c, p) == Some(end) && c[p] == BACKSLASH
    requires Decode(c, p, end).Some? && NulFree(Decode(c, p, end).value)
    ensures Escape(c, p, end)
    ensures var rest := Decode(c, p + TokenAt(c, p, end).value.length, end); rest.Some? && NulFree(rest.value)
  {
    hide Scan, TokenAt;
    var t := TokenAt(c, p, end).value;
    assert Decode(c, p, end).value == t.bytes + Decode(c, p + t.length, end).value;
  }

  lemma EscapeRead(s: Str, m: Str, p: nat, r: nat, end: nat, mode: Mode)
    requires Sieving(s, m, p, r, end, mode) && s[p] == BACKSLASH && p < end
    ensures Escape(Terminated(s), p, end)
    ensures var n := TokenAt(Terminated(s), p, end).value.length;
      && p + n <= end && r + n <= |m| && m[r..r + n] == s[p..p + n]
      && Loss(s, p, end + 1, mode) == Loss(s, p + n, end + 1, ModeAfter(s, p, p + n, mode))
      && Sieving(s, m, p + n, r + n, end, ModeAfter(s, p, p + n, mode))
  {
    hide Rest, Scan, Loss, ModeAfter, TokenAt, Decode, NulFree, SlashesKept;
    var c := Terminated(s);
    EscapeFirst(c, p, end);
    var n := TokenAt(c, p, end).value.length;
    EscapeVisible(c, p, end);
    forall j | p <= j < p + n ensures !Blank(s[j]) {
      assert s[j] == c[j];
    }
    SlashesSplit(s, p, p + n, end + 1, mode);
    VisibleKept(s, p, p + n, mode);
    LossSplit(s, p, p + n, end + 1, mode);
    RestThrough(s, p, p + n, mode);
    TakenOff(m, r, s[p..p + n], Rest(s, p + n, ModeAfter(s, p, p + n, mode)));
  }

  lemma EscapeSieved(s: Str, m: Str, p: nat, r: nat, end: nat, mode: Mode)
    requires Sieving(s, m, p, r, end, mode) && Escape(Terminated(s), p, end)
    requires var n := TokenAt(Terminated(s), p, end).value.length;
      && p + n <= end && r + n <= |m| && m[r..r + n] == s[p..p + n]
      && Loss(s, p, end + 1, mode) == Loss(s, p + n, end + 1, ModeAfter(s, p, p + n, mode))
      && Sieving(s, m, p + n, r + n, end, ModeAfter(s, p, p + n, mode))
      && Sieved(s, m, p + n, r + n, end, ModeAfter(s, p, p + n, mode))
    ensures Sieved(s, m, p, r, end, mode)
  {
    hide Rest, Scan, Loss, ModeAfter, TokenAt, NulFree, Decode, Escape;
    var c, d := Terminated(s), Terminated(m);
    EscapeWithin(c, p, end);
    DecodeToken(c, p, end);
    var n := TokenAt(c, p, end).value.length;
    assert d[r..r + n] == m[r..r + n] && c[p..p + n] == s[p..p + n];
    EscapeCopied(c, d, p, r, end);
    var e := r + n + (end - (p + n)) - Loss(s, p + n, end + 1, ModeAfter(s, p, p + n, mode));
    DecodeToken(d, r, e);
  }

  lemma EscapeWithin(c: Str, p: nat, end: nat)
    requires Escape(c, p, end)
    ensures p < end < |c| && TokenAt(c, p, end).Some? && TokenAt(c, p, end).value.length > 0
  {
  }

  lemma DecodeToken(c: Str, p: nat, end: nat)
    requires p < end < |c| && TokenAt(c, p, end).Some?
    ensures var t := TokenAt(c, p, end).value;
      var rest := Decode(c, p + t.length, end);
      Decode(c, p, end) == if rest.None? then None else Some(t.bytes + rest.value)
  {
    hide TokenAt;
  }

  lemma LossExcluded(s: Str, m: Str, o: nat, q: nat, end: nat, mode: Mode)
    requires RelatedIn(s, m, o, q, mode) && o < |s| && s[o] == QUOTE
    requires Scan(s, o + 1) == Some(end) && Loss(s, o, end + 1, mode) > 0
    ensures !Kept(s) && SlashesKept(s, o, end + 1, mode)
    ensures var b := Decode(Terminated(s), o + 1, end); b.Some? ==> NulFree(b.value)
  {
    hide Kept, Scan, Decode, Loss, Rest, SlashesKept;
  }

  /** Behind the opening quote, which is kept. */
  lemma CutSieving(s: Str, m: Str, o: nat, q: nat, end: nat, mode: Mode)
    requires RelatedIn(s, m, o, q, mode) && o < |s| && s[o] == QUOTE
    requires Scan(s, o + 1) == Some(end) && Scan(Terminated(s), o + 1) == Some(end)
    requires Decode(Terminated(s), o + 1, end).Some? && Loss(s, o, end + 1, mode) > 0
    ensures !Kept(s) && q < |m| && m[q] == QUOTE
    ensures var next := NextMode(s, o, mode);
      Sieving(s, m, o + 1, q + 1, end, next) && Loss(s, o + 1, end + 1, next) > 0
  {
    LossExcluded(s, m, o, q, end, mode);
    LossStep(s, o, end + 1, mode);
    RestStep(s, o, mode);
    hide Rest, Scan, Decode, Kept, BlanksOnly, LiteralsKept, Loss, NulFree;
    HeadOff(m, q, QUOTE, Rest(s, o + 1, NextMode(s, o, mode)));
  }

  /** So a literal that loses a byte is decoded to a shorter string. */
  lemma LiteralCut(s: Str, m: Str, o: nat, q: nat, end: nat, mode: Mode)
    requires RelatedIn(s, m, o, q, mode) && o < |s| && s[o] == QUOTE
    requires Scan(s, o + 1) == Some(end) && Scan(Terminated(s), o + 1) == Some(end)
    requires StringAt(Terminated(s), o).Some? && Loss(s, o, end + 1, mode) > 0
    ensures !Kept(s)
    ensures StringAt(Terminated(m), q).Some?
    ensures |StringAt(Terminated(m), q).value.value| < |StringAt(Terminated(s), o).value.value|
  {
    hide *;
    var c, d := Terminated(s), Terminated(m);
    StringIs(c, o, end);
    CutSieving(s, m, o, q, end, mode);
    LiteralSieved(s, m, o + 1, q + 1, end, NextMode(s, o, mode));
    ShorterString(s, m, o, q, end, NextMode(s, o, mode));
  }

  lemma ShorterString(s: Str, m: Str, o: nat, q: nat, end: nat, next: Mode)
    requires Sieving(s, m, o + 1, q + 1, end, next) && Sieved(s, m, o + 1, q + 1, end, next)
    requires Loss(s, o + 1, end + 1, next) > 0
    requires q < |m| && m[q] == QUOTE && s[o] == QUOTE
    ensures var r, t := StringAt(Terminated(s), o), StringAt(Terminated(m), q);
      r.Some? && t.Some? && |t.value.value| < |r.value.value|
  {
    var c, d := Terminated(s), Terminated(m);
    var b, loss := Decode(c, o + 1, end), Loss(s, o + 1, end + 1, next);
    var e := q + 1 + (end - (o + 1)) - loss;
    var x := Decode(d, q + 1, e);
    hide Scan, Decode, Loss, StringAt, CString, NulFree, Rest;
    StringIs(c, o, end);
    StringIs(d, q, e);
    CStringLength(b.value);
    CStringLength(x.value);
  }

  lemma {:induction false} CStringLength(bytes: Str)
    ensures |CString(bytes)| <= |bytes| && (NulFree(bytes) ==> CString(bytes) == bytes)
  {
    if bytes != [] {
      CStringLength(bytes[1..]);
    }
  }

  lemma StringNext(c: Str, o: nat)
    requires StringAt(c, o).Some?
    ensures o < |c| && c[o] == QUOTE && Scan(c, o + 1).Some?
    ensures StringAt(c, o).value.next == Scan(c, o + 1).value + 1
  {
  }

  lemma TakenOff(m: Str, q: nat, literal: Str, rest: Str)
    requires q <= |m| && m[q..] == literal + rest
    ensures q + |literal| <= |m| && m[q..q + |literal|] == literal && m[q + |literal|..] == rest
  {
    assert m[q..][..|literal|] == literal && m[q..][|literal|..] == rest;
  }

  // ----- values -----

  /** What may follow a value: the next punctuation or the end of the text. */
  predicate Ender(b: byte) {
    b == 0 || b == COMMA || b == CLOSE_BRACKET || b == CLOSE_BRACE
  }

  predicate Followed(c: Str, n: nat) {
    n <= |c| && Skip(c, n) < |c| && Ender(c[Skip(c, n)])
  }

  /** A value so followed does not run on, in either text. */
  lemma FollowedEnds(s: Str, m: Str, n: nat, k: nat)
    requires Related(s, m, n, k) && Followed(Terminated(s), n)
    ensures NumberEnds(Terminated(s), n) && NumberEnds(Terminated(m), k)
  {
    hide Related;
    RelatedBounds(s, m, n, k);
    SkipRelated(s, m, n, k);
    VisibleStays(Terminated(s), n);
    VisibleStays(Terminated(m), k);
  }

  lemma VisibleStays(c: Str, n: nat)
    requires n < |c|
    ensures c[n] > 32 ==> Skip(c, n) == n
  {
  }

  lemma {:induction false} NumberBytes(c: Str, o: nat, left: nat)
    requires o <= |c|
    ensures forall k | o <= k < NumberEnd(c, o, left) :: NumberByte(c[k])
    decreases left
  {
    if left > 0 && o < |c| && NumberByte(c[o]) {
      NumberBytes(c, o + 1, left - 1);
    }
  }

  /** A number that nothing continues is copied whole. */
  lemma WholeNumber(c: Str, o: nat)
    requires o <= |c| && NumberAt(c, o).Some? && NumberEnds(c, NumberAt(c, o).value.next)
    ensures NumberEnd(c, o, 63) == NumberAt(c, o).value.next
    ensures forall k | o <= k < NumberAt(c, o).value.next :: NumberByte(c[k])
  {
    hide StrtodLength, NumberItem, NumberByte;
    NumberBytes(c, o, 63);
  }

  lemma SameNumber(c: Str, d: Str, o: nat, q: nat, n: nat)
    requires o < n <= |c| && q + (n - o) <= |d| && d[q..q + (n - o)] == c[o..n]
    requires NumberAt(c, o).Some? && NumberAt(c, o).value.next == n && NumberEnd(c, o, 63) == n
    requires (forall k | o <= k < n :: NumberByte(c[k]))
    requires NumberEnds(d, q + (n - o))
    ensures NumberAt(d, q) == Some(Parsed(NumberAt(c, o).value.value, q + (n - o)))
  {
    hide StrtodLength, NumberItem, NumberByte;
    SliceShift(c, d, o, q, n - o);
    forall k | q <= k < q + (n - o) ensures NumberByte(d[k]) {
      assert d[k] == c[k - (q - o)];
    }
    NumberRun(d, q, n - o, 63);
  }

  /** Digits, signs, points and exponents are copied one by one. */
  lemma NumberPlain(b: byte)
    ensures NumberByte(b) ==> Plain(b) && b != 0
  {
  }

  lemma NumberRelated(s: Str, m: Str, o: nat, q: nat)
    requires Related(s, m, o, q) && NumberAt(Terminated(s), o).Some?
    requires Followed(Terminated(s), NumberAt(Terminated(s), o).value.next)
    ensures var r, t := NumberAt(Terminated(s), o).value, NumberAt(Terminated(m), q);
      t.Some? && t.value.value == r.value && Related(s, m, r.next, t.value.next)
  {
    hide Related, NumberAt, NumberByte, NumberEnd, Plain;
    RelatedBounds(s, m, o, q);
    var c, d := Terminated(s), Terminated(m);
    var n := NumberAt(c, o).value.next;
    VisibleStays(c, n);
    EnderIsNoNumber();
    WholeNumber(c, o);
    forall k | o <= k < n ensures k < |s| && Plain(s[k]) {
      NumberPlain(c[k]);
    }
    NumberPlain(c[n - 1]);
    assert NumberByte(c[n - 1]) && c[n - 1] != 0 && n <= |s|;
    RunRelated(s, m, o, q, n - o);
    FollowedEnds(s, m, n, q + (n - o));
    assert d[q..q + (n - o)] == m[q..q + (n - o)] == s[o..n] == c[o..n];
    SameNumber(c, d, o, q, n);
  }

  lemma EnderIsNoNumber()
    ensures forall b: byte | Ender(b) || b <= 32 :: !NumberByte(b)
  {
  }

  lemma WordRelated(s: Str, m: Str, o: nat, q: nat, word: Str)
    requires Related(s, m, o, q) && StartsWith(Terminated(s), o, word) && word != []
    requires forall i | 0 <= i < |word| :: Plain(word[i])
    ensures StartsWith(Terminated(m), q, word) && Related(s, m, o + |word|, q + |word|)
  {
    hide Related, Plain;
    RelatedBounds(s, m, o, q);
    var c, d := Terminated(s), Terminated(m);
    forall i | o <= i < o + |word| ensures c[i] != 0 && Plain(c[i]) {
      assert c[i] == c[o..o + |word|][i - o] == word[i - o];
      PlainNonzero(c[i]);
    }
    assert c[o + |word| - 1] != 0 && c[|s|] == 0 && o + |word| <= |s|;
    assert forall i | o <= i < o + |word| :: c[i] == s[i];
    RunRelated(s, m, o, q, |word|);
    assert d[q..q + |word|] == m[q..q + |word|] == s[o..o + |word|] == c[o..o + |word|];
  }

  lemma PlainNonzero(b: byte)
    ensures Plain(b) ==> b != 0
  {
  }

  lemma PunctuationRelated(s: Str, m: Str, o: nat, q: nat, b: byte)
    requires Related(s, m, o, q) && ByteIs(Terminated(s), o, b) && Plain(b)
    ensures ByteIs(Terminated(m), q, b) && Related(s, m, o + 1, q + 1) && o + 1 <= |s|
    ensures q + 1 <= |m|
  {
    hide Related;
    RelatedHead(s, m, o, q);
  }

  /** Skipped to punctuation, both texts have it and go on behind it. */
  lemma PunctuationFound(s: Str, m: Str, o: nat, q: nat, b: byte)
    requires Related(s, m, o, q) && ByteIs(Terminated(s), Skip(Terminated(s), o), b) && Plain(b)
    ensures var p, r := Skip(Terminated(s), o), Skip(Terminated(m), q);
      ByteIs(Terminated(m), r, b) && p + 1 <= |s| && r + 1 <= |m| && Related(s, m, p + 1, r + 1)
  {
    hide Related, Skip;
    SkipRelated(s, m, o, q);
    PunctuationRelated(s, m, Skip(Terminated(s), o), Skip(Terminated(m), q), b);
  }

  lemma ValueStarts(c: Str, o: nat, depth: nat)
    requires o < |c| && ValueAt(c, o, depth).Some?
    ensures c[o] != SLASH && c[o] != 0
  {
    WordStarts(c, o, NULL_WORD);
    WordStarts(c, o, FALSE_WORD);
    WordStarts(c, o, TRUE_WORD);
  }

  /** A value is parsed alike from the minified text. */
  lemma {:induction false} ValueRelated(s: Str, m: Str, o: nat, q: nat, depth: nat)
    requires Related(s, m, o, q) && o <= |s| && q <= |m|
    requires ValueAt(Terminated(s), o, depth).Some?
    requires Followed(Terminated(s), ValueAt(Terminated(s), o, depth).value.next)
    ensures Alike(s, m, ValueAt(Terminated(s), o, depth).value, ValueAt(Terminated(m), q, depth))
    decreases |s| - o, 0
  {
    hide ItemsAt, MembersAt, Related, Skip, StringAt, NumberAt, ArrayAt, ObjectAt, Followed;
    var c, d := Terminated(s), Terminated(m);
    WordsPlain();
    if StartsWith(c, o, NULL_WORD) {
      WordRelated(s, m, o, q, NULL_WORD);
    } else if StartsWith(c, o, FALSE_WORD) {
      WordRelated(s, m, o, q, FALSE_WORD);
      WordStarts(d, q, NULL_WORD);
      WordStarts(d, q, FALSE_WORD);
    } else if StartsWith(c, o, TRUE_WORD) {
      WordRelated(s, m, o, q, TRUE_WORD);
      WordStarts(d, q, NULL_WORD);
      WordStarts(d, q, FALSE_WORD);
      WordStarts(d, q, TRUE_WORD);
    } else {
      FirstDecides(s, m, o, q, depth);
      hide ValueAt;
      if c[o] == QUOTE {
        StringRelated(s, m, o, q);
      } else if c[o] == OPEN_BRACKET {
        ArrayRelated(s, m, o, q, depth);
      } else if c[o] == OPEN_BRACE {
        ObjectRelated(s, m, o, q, depth);
      } else {
        NumberRelated(s, m, o, q);
      }
    }
  }

  lemma WordsPlain()
    ensures forall i | 0 <= i < |NULL_WORD| :: Plain(NULL_WORD[i])
    ensures forall i | 0 <= i < |FALSE_WORD| :: Plain(FALSE_WORD[i])
    ensures forall i | 0 <= i < |TRUE_WORD| :: Plain(TRUE_WORD[i])
  {
  }

  /** Any other value is parsed by its first byte, which both texts have. */
  lemma FirstDecides(s: Str, m: Str, o: nat, q: nat, depth: nat)
    requires Related(s, m, o, q) && ValueAt(Terminated(s), o, depth).Some?
    requires !StartsWith(Terminated(s), o, NULL_WORD)
    requires !StartsWith(Terminated(s), o, FALSE_WORD)
    requires !StartsWith(Terminated(s), o, TRUE_WORD)
    ensures o < |s| && q < |m| && s[o] == m[q]
    ensures var b := s[o];
      && (b == QUOTE || b == OPEN_BRACKET || b == OPEN_BRACE || b == MINUS || IsDigit(b))
      && (b == QUOTE ==> OfString(Terminated(s), o, depth) && OfString(Terminated(m), q, depth))
      && (b == OPEN_BRACKET ==> ValueAt(Terminated(s), o, depth) == ArrayAt(Terminated(s), o, depth)
                                && ValueAt(Terminated(m), q, depth) == ArrayAt(Terminated(m), q, depth))
      && (b == OPEN_BRACE ==> ValueAt(Terminated(s), o, depth) == ObjectAt(Terminated(s), o, depth)
                              && ValueAt(Terminated(m), q, depth) == ObjectAt(Terminated(m), q, depth))
      && (b == MINUS || IsDigit(b) ==> ValueAt(Terminated(s), o, depth) == NumberAt(Terminated(s), o)
                                       && ValueAt(Terminated(m), q, depth) == NumberAt(Terminated(m), q))
  {
    hide ArrayAt, ObjectAt, NumberAt, StringAt, Related, StartsWith;
    var c, d := Terminated(s), Terminated(m);
    assert o < |c| && (c[o] == QUOTE || c[o] == OPEN_BRACKET || c[o] == OPEN_BRACE || c[o] == MINUS || IsDigit(c[o]));
    hide ValueAt;
    RelatedHead(s, m, o, q);
    ListStarts(c, o, depth);
    ListStarts(d, q, depth);
  }

  /** The value at `o` is the string there. */
  ghost predicate OfString(c: Str, o: nat, depth: nat) {
    o <= |c| && ValueAt(c, o, depth)
             == var t := StringAt(c, o);
                if t.None? then None else Some(Parsed(String(t.value.value), t.value.next))
  }

  lemma {:induction false} ArrayRelated(s: Str, m: Str, o: nat, q: nat, depth: nat)
    requires Related(s, m, o, q) && ByteIs(Terminated(s), o, OPEN_BRACKET)
    requires ByteIs(Terminated(m), q, OPEN_BRACKET) && ArrayAt(Terminated(s), o, depth).Some?
    ensures Alike(s, m, ArrayAt(Terminated(s), o, depth).value, ArrayAt(Terminated(m), q, depth))
    decreases |s| - o - 1, 2
  {
    hide ItemsAt, Related, Skip, ValueAt;
    var c, d := Terminated(s), Terminated(m);
    PunctuationRelated(s, m, o, q, OPEN_BRACKET);
    var p, r := Skip(c, o + 1), Skip(d, q + 1);
    if ByteIs(c, p, CLOSE_BRACKET) {
      PunctuationFound(s, m, o + 1, q + 1, CLOSE_BRACKET);
    } else {
      SkipTwice(c, o + 1);
      ItemsStart(c, p, depth + 1);
      SkipRelated(s, m, o + 1, q + 1);
      RelatedBounds(s, m, p, r);
      ItemsRelated(s, m, p, r, depth + 1);
    }
  }

  /** Elements that are parsed start with no slash. */
  lemma ItemsStart(c: Str, p: nat, depth: nat)
    requires p < |c| && ItemsAt(c, p, depth).Some? && Skip(c, p) == p
    ensures c[p] != SLASH && c[p] != 0
  {
    hide ValueAt, Skip;
    ValueStarts(c, p, depth);
  }

  lemma {:induction false} ItemsRelated(s: Str, m: Str, o: nat, q: nat, depth: nat)
    requires Related(s, m, o, q) && o <= |s| && q <= |m|
    requires ItemsAt(Terminated(s), o, depth).Some?
    ensures Alike(s, m, ItemsAt(Terminated(s), o, depth).value, ItemsAt(Terminated(m), q, depth))
    decreases |s| - o, 1
  {
    hide Related, Skip, ValueAt;
    var c, d := Terminated(s), Terminated(m);
    var p := Skip(c, o);
    var first := ValueAt(c, p, depth).value;
    ValueStarts(c, p, depth);
    SkipRelated(s, m, o, q);
    var r := Skip(d, q);
    RelatedBounds(s, m, p, r);
    ValueRelated(s, m, p, r, depth);
    var t := ValueAt(d, r, depth);
    if Same(s, m, first, t) {
      var n, k := first.next, t.value.next;
      RelatedBounds(s, m, n, k);
      if ByteIs(c, Skip(c, n), COMMA) {
        PunctuationFound(s, m, n, k, COMMA);
        ItemsRelated(s, m, Skip(c, n) + 1, Skip(d, k) + 1, depth);
        ConsEqual<Json>();
      } else {
        PunctuationFound(s, m, n, k, CLOSE_BRACKET);
      }
    } else {
      ConsEqual<Json>();
      ItemsHead(c, o, depth);
      if t.Some? && ItemsAt(d, q, depth).Some? {
        ItemsHead(d, q, depth);
      }
    }
  }

  lemma ConsEqual<T(!new)>()
    ensures forall x: T, y: T, a: seq<T>, b: seq<T> :: [x] + a == [y] + b ==> x == y && a == b
  {
    forall x: T, y: T, a: seq<T>, b: seq<T> | [x] + a == [y] + b ensures x == y && a == b {
      assert ([x] + a)[0] == x && ([x] + a)[1..] == a && ([y] + b)[0] == y && ([y] + b)[1..] == b;
    }
  }

  lemma ItemsHead(c: Str, o: nat, depth: nat)
    requires o <= |c| && ItemsAt(c, o, depth).Some?
    ensures ValueAt(c, Skip(c, o), depth).Some?
    ensures var items := ItemsAt(c, o, depth).value.value;
      items != [] && items[0] == ValueAt(c, Skip(c, o), depth).value.value
  {
    hide ValueAt, Skip;
  }

  lemma {:induction false} ObjectRelated(s: Str, m: Str, o: nat, q: nat, depth: nat)
    requires Related(s, m, o, q) && ByteIs(Terminated(s), o, OPEN_BRACE)
    requires ByteIs(Terminated(m), q, OPEN_BRACE) && ObjectAt(Terminated(s), o, depth).Some?
    ensures Alike(s, m, ObjectAt(Terminated(s), o, depth).value, ObjectAt(Terminated(m), q, depth))
    decreases |s| - o - 1, 2
  {
    hide MembersAt, Related, Skip, ValueAt;
    var c, d := Terminated(s), Terminated(m);
    PunctuationRelated(s, m, o, q, OPEN_BRACE);
    var p, r := Skip(c, o + 1), Skip(d, q + 1);
    if ByteIs(c, p, CLOSE_BRACE) {
      PunctuationFound(s, m, o + 1, q + 1, CLOSE_BRACE);
    } else {
      SkipTwice(c, o + 1);
      MembersStart(c, p, depth + 1);
      SkipRelated(s, m, o + 1, q + 1);
      RelatedBounds(s, m, p, r);
      MembersRelated(s, m, p, r, depth + 1);
    }
  }

  lemma MembersStart(c: Str, p: nat, depth: nat)
    requires p < |c| && MembersAt(c, p, depth).Some? && Skip(c, p) == p
    ensures c[p] == QUOTE
  {
    hide ValueAt, Skip;
    StringNext(c, p);
  }

  /** The name of a member is read alike. */
  lemma NameRelated(s: Str, m: Str, o: nat, q: nat)
    requires Related(s, m, o, q) && o <= |s| && q <= |m| && NameAt(Terminated(s), o).Some?
    ensures Alike(s, m, NameAt(Terminated(s), o).value, NameAt(Terminated(m), q))
  {
    hide Related, Skip, StringAt;
    var c, d := Terminated(s), Terminated(m);
    var p := Skip(c, o);
    StringNext(c, p);
    SkipRelated(s, m, o, q);
    var r := Skip(d, q);
    RelatedBounds(s, m, p, r);
    StringRelated(s, m, p, r);
    if Same(s, m, StringAt(c, p).value, StringAt(d, r)) {
      var n, k := StringAt(c, p).value.next, StringAt(d, r).value.next;
      RelatedBounds(s, m, n, k);
      PunctuationFound(s, m, n, k, COLON);
    }
  }

  lemma {:induction false} MembersRelated(s: Str, m: Str, o: nat, q: nat, depth: nat)
    requires Related(s, m, o, q) && o <= |s| && q <= |m|
    requires MembersAt(Terminated(s), o, depth).Some?
    ensures Alike(s, m, MembersAt(Terminated(s), o, depth).value, MembersAt(Terminated(m), q, depth))
    decreases |s| - o, 1
  {
    hide Related, Skip, ValueAt, NameAt, MembersAt, Kept;
    var c, d := Terminated(s), Terminated(m);
    MembersHead(c, o, depth);
    NameRelated(s, m, o, q);
    if MembersAt(d, q, depth).Some? {
      MembersHead(d, q, depth);
    }
    if Same(s, m, NameAt(c, o).value, NameAt(d, q)) {
      var a, b := NameAt(c, o).value.next, NameAt(d, q).value.next;
      RelatedBounds(s, m, a, b);
      var p := Skip(c, a);
      var first := ValueAt(c, p, depth).value;
      MembersIs(c, o, depth);
      ValueStarts(c, p, depth);
      SkipRelated(s, m, a, b);
      var r := Skip(d, b);
      RelatedBounds(s, m, p, r);
      ValueRelated(s, m, p, r, depth);
      var t := ValueAt(d, r, depth);
      if Same(s, m, first, t) {
        var n, k := first.next, t.value.next;
        RelatedBounds(s, m, n, k);
        MembersIs(d, q, depth);
        if ByteIs(c, Skip(c, n), COMMA) {
          PunctuationFound(s, m, n, k, COMMA);
          MembersRelated(s, m, Skip(c, n) + 1, Skip(d, k) + 1, depth);
          ConsEqual<Member>();
        } else {
          PunctuationFound(s, m, n, k, CLOSE_BRACE);
        }
      }
    }
  }

  lemma MembersIs(c: Str, o: nat, depth: nat)
    requires o <= |c| && NameAt(c, o).Some? && ValueAt(c, Skip(c, NameAt(c, o).value.next), depth).Some?
    ensures var name := NameAt(c, o).value;
      var value := ValueAt(c, Skip(c, name.next), depth).value;
      var m, q := Member(name.value, value.value), Skip(c, value.next);
      MembersAt(c, o, depth)
      == if ByteIs(c, q, COMMA) then
           var rest := MembersAt(c, q + 1, depth);
           if rest.None? then None else Some(Parsed([m] + rest.value.value, rest.value.next))
         else if ByteIs(c, q, CLOSE_BRACE) then Some(Parsed([m], q + 1))
         else None
  {
    hide ValueAt, Skip, NameAt;
  }

  lemma MembersHead(c: Str, o: nat, depth: nat)
    requires o <= |c| && MembersAt(c, o, depth).Some?
    ensures var name := NameAt(c, o); var members := MembersAt(c, o, depth).value.value;
      && name.Some? && ValueAt(c, Skip(c, name.value.next), depth).Some?
      && members != []
      && members[0] == Member(name.value.value, ValueAt(c, Skip(c, name.value.next), depth).value.value)
  {
    hide ValueAt, Skip, NameAt;
  }

  // ----- the whole text -----

  lemma StartRelated(s: Str)
    requires NulFree(s) && (Kept(s) || BlanksOnly(s, 0, Outside))
    ensures Related(s, Minified(s), 0, 0)
  {
    assert Minified(s)[0..] == Minified(s);
    assert RelatedIn(s, Minified(s), 0, 0, Outside);
  }

  /** A byte order mark is kept. */
  lemma MarkRelated(s: Str)
    requires NulFree(s) && (Kept(s) || BlanksOnly(s, 0, Outside))
    requires ValueAt(Terminated(s), Skip(Terminated(s), BomLength(Terminated(s))), 0).Some?
    ensures var n := BomLength(Terminated(s));
      n <= |s| && BomLength(Terminated(Minified(s))) == n && Related(s, Minified(s), n, n)
  {
    hide Related, Skip, ValueAt, Minified, Kept, BlanksOnly;
    StartRelated(s);
    if BomLength(Terminated(s)) == 3 {
      MarkKept(s, Minified(s));
    } else {
      NoMarkGained(s, Minified(s));
    }
  }

  lemma MarkKept(s: Str, m: Str)
    requires Related(s, m, 0, 0) && BomLength(Terminated(s)) == 3
    requires ValueAt(Terminated(s), Skip(Terminated(s), 3), 0).Some?
    ensures 3 <= |s| && BomLength(Terminated(m)) == 3 && Related(s, m, 3, 3)
  {
    var c, d := Terminated(s), Terminated(m);
    assert c[0] == s[0] == 0xEF && c[1] == s[1] == 0xBB && c[2] == s[2] == 0xBF;
    assert Plain(s[0]) && Plain(s[1]) && Plain(s[2]);
    hide *;
    RunRelated(s, m, 0, 0, 3);
    ValueStarts(c, Skip(c, 3), 0);
    SkipRelated(s, m, 3, 3);
    RelatedBounds(s, m, 3, 3);
    RelatedBounds(s, m, Skip(c, 3), Skip(d, 3));
    assert m[0..3] == s[0..3];
    MarkFound(s, m, Skip(d, 3));
  }

  lemma MarkFound(s: Str, m: Str, r: nat)
    requires BomLength(Terminated(s)) == 3 && 3 <= |s| && 3 <= |m| && m[0..3] == s[0..3]
    requires 3 <= r <= |m| && Terminated(m)[r] != 0
    ensures BomLength(Terminated(m)) == 3
  {
    assert m[0] == m[0..3][0] && m[1] == m[0..3][1] && m[2] == m[0..3][2];
    assert s[0] == s[0..3][0] && s[1] == s[0..3][1] && s[2] == s[0..3][2];
  }

  lemma NoMarkGained(s: Str, m: Str)
    requires Related(s, m, 0, 0) && BomLength(Terminated(s)) == 0
    requires ValueAt(Terminated(s), Skip(Terminated(s), 0), 0).Some?
    ensures BomLength(Terminated(m)) == 0
  {
    var c, d := Terminated(s), Terminated(m);
    assert d[0] <= 32 || BomLength(d) == 0 || d[0] == 0xEF;
    hide *;
    ValueStarts(c, Skip(c, 0), 0);
    ValueNoMark(c, Skip(c, 0));
    SkipRelated(s, m, 0, 0);
    VisibleStays(d, 0);
    FirstDecidesMark(d);
  }

  lemma FirstDecidesMark(d: Str)
    ensures BomLength(d) == 0 || (d != [] && d[0] == 0xEF)
  {
  }

  lemma ValueNoMark(c: Str, o: nat)
    requires o < |c| && ValueAt(c, o, 0).Some?
    ensures c[o] != 0xEF
  {
    WordStarts(c, o, NULL_WORD);
    WordStarts(c, o, FALSE_WORD);
    WordStarts(c, o, TRUE_WORD);
  }

  lemma EndReached(s: Str, p: nat)
    requires NulFree(s) && p <= |s|
    ensures Terminated(s)[p] == 0 ==> p == |s|
  {
    assert p < |s| ==> s[p] in s;
  }

  /** At the end all literals have been seen, so none has lost a byte. */
  lemma RelatedEnd(s: Str, m: Str, q: nat)
    requires Related(s, m, |s|, q)
    ensures q == |m| && Kept(s)
  {
    hide Rest, Kept;
    RelatedHead(s, m, |s|, q);
  }

  // ----- which texts lose nothing -----

  /** No string literal from `i` on, other than the last one, ends in an escaped backslash. */
  predicate LiteralsFine(s: Str, i: nat)
    decreases |s| - i
  {
    i < |s| ==>
      if s[i] != QUOTE then LiteralsFine(s, i + 1)
      else
        var end := Scan(s, i + 1);
        end.Some? ==>
          if EndsInBackslash(s, i + 1, end.value) then QUOTE !in s[end.value + 1..]
          else LiteralsFine(s, end.value + 1)
  }

  lemma {:induction false} InLiteral(s: Str, p: nat, end: nat)
    requires p <= end < |s| && Scan(s, p) == Some(end)
    ensures Loss(s, p, end + 1, Inside) == 0
    ensures ModeAfter(s, p, end + 1, Inside) == if EndsInBackslash(s, p, end) then Inside else Outside
    decreases end - p
  {
    if p == end {
      assert Loss(s, end + 1, end + 1, Outside) == 0 && ModeAfter(s, end + 1, end + 1, Outside) == Outside;
    } else if s[p] != BACKSLASH {
      InLiteral(s, p + 1, end);
    } else {
      EscapeToken(s, p, end);
      InLiteral(s, p + 2, end);
      var next := NextMode(s, p, Inside);
      assert Loss(s, p + 1, end + 1, next) == Loss(s, p + 2, end + 1, NextMode(s, p + 1, next));
      assert ModeAfter(s, p + 1, end + 1, next) == ModeAfter(s, p + 2, end + 1, NextMode(s, p + 1, next));
      if next == Inside && s[p + 1] == BACKSLASH && Peek(s, p + 2) == QUOTE {
        NotQuotedAt(s, p + 2, end);
        assert Loss(s, end + 1, end + 1, Inside) == 0 && ModeAfter(s, end + 1, end + 1, Inside) == Inside;
      }
    }
  }

  lemma NotQuotedAt(s: Str, p: nat, end: nat)
    requires p <= end < |s| && Scan(s, p) == Some(end) && s[p] == QUOTE
    ensures p == end
  {
  }

  lemma {:induction false} NoQuoteKept(s: Str, i: nat, mode: Mode)
    requires i <= |s| && QUOTE !in s[i..]
    ensures LiteralsKept(s, i, mode)
    decreases |s| - i
  {
    if i < |s| {
      assert s[i] == s[i..][0] && s[i..][1..] == s[i + 1..];
      NoQuoteKept(s, i + 1, NextMode(s, i, mode));
    }
  }

  /** If no literal but the last ends in an escaped backslash, no byte of a literal is dropped. */
  lemma {:induction false} FineIsKept(s: Str, i: nat)
    requires i <= |s| && LiteralsFine(s, i)
    ensures LiteralsKept(s, i, Outside)
    decreases |s| - i
  {
    hide Scan, EndsInBackslash;
    if i < |s| {
      if s[i] != QUOTE {
        FineIsKept(s, i + 1);
      } else if Scan(s, i + 1).Some? {
        var end := Scan(s, i + 1).value;
        InLiteral(s, i + 1, end);
        LossStep(s, i, end + 1, Outside);
        hide Loss;
        if EndsInBackslash(s, i + 1, end) {
          NoQuoteKept(s, end + 1, Inside);
        } else {
          FineIsKept(s, end + 1);
        }
      }
    }
  }
}
