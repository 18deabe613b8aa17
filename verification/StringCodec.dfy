/** String literals of cJSON.c: decoding them into an estimated buffer, and escaping them for print. */
module StringCodec {
  import opened Prelude
  import Utf8

  const QUOTE: byte := 34
  const BACKSLASH: byte := 92
  const LETTER_U: byte := 117

  /** A parsed value and the offset behind it. */
  datatype Parsed<T> = Parsed(value: T, next: nat)

  // ----- one escape sequence -----

  function HexDigit(c: byte): (d: int)
    ensures -1 <= d < 16
  {
    var x: int := c;
    if 48 <= x <= 57 then x - 48
    else if 65 <= x <= 70 then 10 + x - 65
    else if 97 <= x <= 102 then 10 + x - 97
    else -1
  }

  /** The hexadecimal digits in order, in lower and in upper case. */
  const LOWER_DIGITS: Str := Ascii("0123456789abcdef")
  const UPPER_DIGITS: Str := Ascii("0123456789ABCDEF")

  lemma DigitBytes()
    ensures |LOWER_DIGITS| == |UPPER_DIGITS| == 16
    ensures forall d | 0 <= d < 16 :: LOWER_DIGITS[d] == if d < 10 then 48 + d else 87 + d
    ensures forall d | 0 <= d < 16 :: UPPER_DIGITS[d] == if d < 10 then 48 + d else 55 + d
  {
  }

  /** A byte is taken for a digit exactly if it is that digit in one of the two cases, and for none otherwise. */
  lemma HexDigitExactly(b: byte, d: nat)
    requires d < 16
    ensures HexDigit(b) == d <==> b == LOWER_DIGITS[d] || b == UPPER_DIGITS[d]
    ensures HexDigit(b) == -1 <==> b !in LOWER_DIGITS && b !in UPPER_DIGITS
  {
    DigitBytes();
    hide LOWER_DIGITS, UPPER_DIGITS;
    var k := HexDigit(b);
    assert k >= 0 ==> b == LOWER_DIGITS[k] || b == UPPER_DIGITS[k];
  }

  predicate FourHex(c: Str, i: nat) {
    i + 4 <= |c| && HexDigit(c[i]) >= 0 && HexDigit(c[i + 1]) >= 0 && HexDigit(c[i + 2]) >= 0 && HexDigit(c[i + 3]) >= 0
  }

  /** The value of four hexadecimal digits; 0 if they are not. */
  function Hex4(c: Str, i: nat): (h: nat)
    requires i + 4 <= |c|
    ensures h < 0x10000
  {
    if FourHex(c, i) then
      HexDigit(c[i]) * 0x1000 + HexDigit(c[i + 1]) * 0x100 + HexDigit(c[i + 2]) * 0x10 + HexDigit(c[i + 3])
    else 0
  }

  function DigitByte(d: nat, upper: bool): byte
    requires d < 16
  {
    DigitBytes();
    if upper then UPPER_DIGITS[d] else LOWER_DIGITS[d]
  }

  /** A number as four hexadecimal digits, each in one of the two cases. */
  function HexText(code: nat, upper: seq<bool>): (t: Str)
    requires code < 0x10000 && |upper| == 4
    ensures |t| == 4
  {
    [DigitByte(code / 0x1000, upper[0]), DigitByte(code / 0x100 % 0x10, upper[1]),
     DigitByte(code / 0x10 % 0x10, upper[2]), DigitByte(code % 0x10, upper[3])]
  }

  lemma DigitRead(d: nat, upper: bool)
    requires d < 16
    ensures HexDigit(DigitByte(d, upper)) == d
  {
    DigitBytes();
    HexDigitExactly(DigitByte(d, upper), d);
  }

  /** Four digits are read as the number they spell. */
  lemma HexTextRead(code: nat, upper: seq<bool>)
    requires code < 0x10000 && |upper| == 4
    ensures FourHex(HexText(code, upper), 0) && Hex4(HexText(code, upper), 0) == code
  {
    hide HexDigit, DigitByte;
    DigitRead(code / 0x1000, upper[0]);
    DigitRead(code / 0x100 % 0x10, upper[1]);
    DigitRead(code / 0x10 % 0x10, upper[2]);
    DigitRead(code % 0x10, upper[3]);
    BaseSixteen(code);
  }

  lemma NextDigit(high: nat, low: nat)
    requires low < 0x10
    ensures (0x10 * high + low) / 0x10 == high && (0x10 * high + low) % 0x10 == low
  {
  }

  lemma DividedTwice(n: nat)
    ensures n / 0x10 / 0x10 == n / 0x100 && n / 0x100 / 0x10 == n / 0x1000
  {
  }

  lemma BaseSixteen(code: nat)
    requires code < 0x10000
    ensures code / 0x1000 < 0x10
    ensures code == code / 0x1000 * 0x1000 + code / 0x100 % 0x10 * 0x100 + code / 0x10 % 0x10 * 0x10 + code % 0x10
  {
    DividedTwice(code);
    LastDigit(code);
    LastDigit(code / 0x10);
    LastDigit(code / 0x100);
  }

  lemma LastDigit(n: nat)
    ensures n == 0x10 * (n / 0x10) + n % 0x10
  {
  }

  lemma SixteenParts(a: nat, b: nat, c: nat, d: nat)
    requires a < 16 && b < 16 && c < 16 && d < 16
    ensures var code := a * 0x1000 + b * 0x100 + c * 0x10 + d;
      && code < 0x10000 && code / 0x1000 == a && code / 0x100 % 0x10 == b
      && code / 0x10 % 0x10 == c && code % 0x10 == d
  {
    var code := a * 0x1000 + b * 0x100 + c * 0x10 + d;
    NextDigit(a * 0x100 + b * 0x10 + c, d);
    NextDigit(a * 0x10 + b, c);
    NextDigit(a, b);
    DividedTwice(code);
  }

  lemma DigitSpelled(b: byte) returns (upper: bool)
    requires HexDigit(b) >= 0
    ensures DigitByte(HexDigit(b), upper) == b
  {
    DigitBytes();
    HexDigitExactly(b, HexDigit(b));
    upper := b == UPPER_DIGITS[HexDigit(b)];
  }

  /** What is read as four digits is a spelling of the number it is read as. */
  lemma FourHexSpelled(c: Str, i: nat)
    requires FourHex(c, i)
    ensures exists upper: seq<bool> :: |upper| == 4 && c[i..i + 4] == HexText(Hex4(c, i), upper)
  {
    hide HexDigit, DigitByte;
    var u0 := DigitSpelled(c[i]);
    var u1 := DigitSpelled(c[i + 1]);
    var u2 := DigitSpelled(c[i + 2]);
    var u3 := DigitSpelled(c[i + 3]);
    SixteenParts(HexDigit(c[i]), HexDigit(c[i + 1]), HexDigit(c[i + 2]), HexDigit(c[i + 3]));
    var upper := [u0, u1, u2, u3];
    assert |upper| == 4 && c[i..i + 4] == HexText(Hex4(c, i), upper);
  }

  /** The text is the number in four hexadecimal digits. */
  ghost predicate Spells(t: Str, code: nat) {
    exists upper: seq<bool> :: code < 0x10000 && |upper| == 4 && t == HexText(code, upper)
  }

  ghost predicate SpellsNone(t: Str) {
    forall code: nat :: !Spells(t, code)
  }

  /** What is read is the number that is spelled, or 0 if there is none. */
  lemma Hex4Exactly(c: Str, i: nat)
    requires i + 4 <= |c|
    ensures Spells(c[i..i + 4], Hex4(c, i)) || (Hex4(c, i) == 0 && SpellsNone(c[i..i + 4]))
  {
    hide HexText;
    var t := c[i..i + 4];
    assert t[0] == c[i] && t[1] == c[i + 1] && t[2] == c[i + 2] && t[3] == c[i + 3];
    if FourHex(c, i) {
      FourHexSpelled(c, i);
    } else {
      forall code: nat ensures !Spells(t, code) {
        if Spells(t, code) {
          var upper: seq<bool> :| code < 0x10000 && |upper| == 4 && t == HexText(code, upper);
          HexTextRead(code, upper);
        }
      }
    }
  }

  /** `parse_hex4`. */
  method ParseHex4(c: Str, i: nat) returns (h: nat)
    requires i + 4 <= |c|
    ensures h == Hex4(c, i)
    ensures Spells(c[i..i + 4], h) || (h == 0 && SpellsNone(c[i..i + 4]))
  {
    Hex4Exactly(c, i);
    hide Spells, SpellsNone;
    h := 0;
    var k := 0;
    while k < 4
      invariant 0 <= k <= 4
      invariant forall j | i <= j < i + k :: HexDigit(c[j]) >= 0
      invariant k == 0 ==> h == 0
      invariant k == 1 ==> h == HexDigit(c[i]) * 0x10
      invariant k == 2 ==> h == HexDigit(c[i]) * 0x100 + HexDigit(c[i + 1]) * 0x10
      invariant k == 3 ==>
        h == HexDigit(c[i]) * 0x1000 + HexDigit(c[i + 1]) * 0x100 + HexDigit(c[i + 2]) * 0x10
      invariant k == 4 ==> FourHex(c, i) && h == Hex4(c, i)
    {
      var x: int := c[i + k];
      assert HexDigit(c[i + k]) == HexDigit(x);
      if 48 <= x <= 57 {
        h := h + x - 48;
      } else if 65 <= x <= 70 {
        h := h + 10 + x - 65;
      } else if 97 <= x <= 102 {
        h := h + 10 + x - 97;
      } else {
        assert !FourHex(c, i);
        return 0;
      }
      if k < 3 {
        h := h * 0x10;
      }
      k := k + 1;
    }
  }

  /** What an escape letter other than `u` stands for. */
  function Simple(c: byte): Option<byte> {
    if c == 98 then Some(8)
    else if c == 102 then Some(12)
    else if c == 110 then Some(10)
    else if c == 114 then Some(13)
    else if c == 116 then Some(9)
    else if c == QUOTE || c == BACKSLASH || c == 47 then Some(c)
    else None
  }

  /** What one step of the decoding loop writes and consumes. */
  datatype Token = Token(bytes: Str, length: nat)

  predicate HighSurrogate(code: nat) {
    0xD800 <= code <= 0xDBFF
  }

  predicate LowSurrogate(code: nat) {
    0xDC00 <= code <= 0xDFFF
  }

  /** `utf16_literal_to_utf8` at `p`, with `end` the end of the literal. */
  function Utf16At(c: Str, p: nat, end: nat): (t: Option<Token>)
    requires p <= end <= |c|
    ensures t.Some? ==> 1 <= |t.value.bytes| <= 4 && 6 <= t.value.length && p + t.value.length <= end
  {
    if end - p < 6 then None
    else
      var first := Hex4(c, p + 2);
      if LowSurrogate(first) then None
      else if !HighSurrogate(first) then Some(Token(Utf8.Encoded(first), 6))
      else if end - (p + 6) < 6 || c[p + 6] != BACKSLASH || c[p + 7] != LETTER_U then None
      else
        var second := Hex4(c, p + 8);
        if !LowSurrogate(second) then None
        else Some(Token(Utf8.Encoded(0x10000 + (first - 0xD800) * 0x400 + (second - 0xDC00)), 12))
  }

  /** One step of the decoding loop. */
  function TokenAt(c: Str, p: nat, end: nat): (t: Option<Token>)
    requires p < end < |c|
    ensures t.Some? ==> t.value.length > 0
  {
    if c[p] != BACKSLASH then Some(Token([c[p]], 1))
    else if c[p + 1] == LETTER_U then Utf16At(c, p, end)
    else if Simple(c[p + 1]).Some? then Some(Token([Simple(c[p + 1]).value], 2))
    else None
  }

  /** The bytes the decoding loop writes from `p` on. */
  function Decode(c: Str, p: nat, end: nat): Option<Str>
    requires end < |c|
    decreases end - p
  {
    if p >= end then Some([])
    else
      var t := TokenAt(c, p, end);
      if t.None? then None
      else
        var rest := Decode(c, p + t.value.length, end);
        if rest.None? then None else Some(t.value.bytes + rest.value)
  }

  // ----- the size estimate -----

  /** The first pass: where the closing quote is. */
  function Scan(c: Str, i: nat): (end: Option<nat>)
    requires i <= |c|
    ensures end.Some? ==> i <= end.value < |c| && c[end.value] == QUOTE
    decreases |c| - i
  {
    if i == |c| then None
    else if c[i] == QUOTE then Some(i)
    else if c[i] != BACKSLASH then Scan(c, i + 1)
    else if i + 1 == |c| then None
    else Scan(c, i + 2)
  }

  /** How many tokens the first pass sees from `i` to its end. */
  function Count(c: Str, i: nat): (n: nat)
    requires i <= |c| && Scan(c, i).Some?
    ensures n <= Scan(c, i).value - i
    decreases |c| - i
  {
    if c[i] == QUOTE then 0 else if c[i] == BACKSLASH then 1 + Count(c, i + 2) else 1 + Count(c, i + 1)
  }

  /** True if `room` bytes are enough for what the second pass can write from `p` on. */
  ghost predicate Fits(c: Str, p: nat, end: nat, room: int) {
    || (p <= end < |c| && Scan(c, p) == Some(end) && Count(c, p) <= room)
    || (p < end < |c| && Scan(c, p + 1) == Some(end) && Count(c, p + 1) + 1 <= room)
    || (p == end + 1 && room >= 0)
  }

  /** From a token boundary, every two bytes hold at least one token. */
  lemma {:induction false} Jump(c: Str, q: nat, end: nat, k: nat)
    requires q + k <= end < |c| && Scan(c, q) == Some(end)
    ensures || (Scan(c, q + k) == Some(end) && 2 * (Count(c, q) - Count(c, q + k)) >= k)
            || (q + k < end && Scan(c, q + k + 1) == Some(end) && 2 * (Count(c, q) - Count(c, q + k + 1)) >= k + 1)
    decreases k
  {
    if k == 1 && c[q] == BACKSLASH {
      assert Scan(c, q + 2) == Some(end);
    } else if k > 0 {
      if c[q] == BACKSLASH {
        Jump(c, q + 2, end, k - 2);
      } else {
        Jump(c, q + 1, end, k - 1);
      }
    }
  }

  /** Four hexadecimal digits are four tokens. */
  lemma HexTokens(c: Str, q: nat, end: nat)
    requires q + 4 <= end < |c| && Scan(c, q) == Some(end) && FourHex(c, q)
    ensures Scan(c, q + 4) == Some(end) && Count(c, q) == 4 + Count(c, q + 4)
  {
    PlainToken(c, q, end);
    PlainToken(c, q + 1, end);
    PlainToken(c, q + 2, end);
    PlainToken(c, q + 3, end);
  }

  lemma PlainToken(c: Str, q: nat, end: nat)
    requires q < end < |c| && Scan(c, q) == Some(end) && c[q] != BACKSLASH
    ensures c[q] != QUOTE && Scan(c, q + 1) == Some(end) && Count(c, q) == 1 + Count(c, q + 1)
  {
  }

  lemma EscapeToken(c: Str, q: nat, end: nat)
    requires q < end < |c| && Scan(c, q) == Some(end) && c[q] == BACKSLASH
    ensures q + 2 <= end && Scan(c, q + 2) == Some(end) && Count(c, q) == 1 + Count(c, q + 2)
  {
  }

  lemma HexNonzero(c: Str, i: nat)
    requires i + 4 <= |c| && Hex4(c, i) > 0
    ensures FourHex(c, i)
  {
  }

  lemma EncodedLength(code: nat)
    requires code <= 0x10FFFF
    ensures code < 0x10000 ==> |Utf8.Encoded(code)| <= 3
    ensures code < 0x80 ==> |Utf8.Encoded(code)| == 1
  {
  }

  /** From a token boundary, what a step writes fits, and the rest still fits behind it. */
  lemma BoundaryStep(c: Str, p: nat, end: nat, room: nat)
    requires p < end < |c| && Scan(c, p) == Some(end) && Count(c, p) <= room
    requires TokenAt(c, p, end).Some?
    ensures var t := TokenAt(c, p, end).value; |t.bytes| <= room && Fits(c, p + t.length, end, room - |t.bytes|)
  {
    hide Scan, Count, Hex4, FourHex, Utf8.Encoded, Utf16At;
    if c[p] != BACKSLASH {
      PlainToken(c, p, end);
    } else {
      EscapeToken(c, p, end);
      if c[p + 1] == LETTER_U {
        HexStep(c, p, p + 2, end);
      }
    }
  }

  /**
   A Unicode escape whose digits start at a token boundary: what it writes is at least two bytes less than
   the tokens it spans.
   */
  lemma HexStep(c: Str, p: nat, q: nat, end: nat)
    requires p + 2 == q <= end < |c| && Scan(c, q) == Some(end) && Utf16At(c, p, end).Some?
    ensures var t := Utf16At(c, p, end).value; var next := p + t.length;
      || (next <= end && Scan(c, next) == Some(end) && |t.bytes| + Count(c, next) <= Count(c, q) + 1)
      || (next < end && Scan(c, next + 1) == Some(end) && |t.bytes| + 1 + Count(c, next + 1) <= Count(c, q) + 1)
  {
    hide Scan, Count, Hex4, FourHex, Utf8.Encoded;
    var first := Hex4(c, q);
    EncodedLength(first);
    if first == 0 {
      Jump(c, q, end, 4);
    } else {
      HexNonzero(c, q);
      HexTokens(c, q, end);
      if HighSurrogate(first) {
        EscapeToken(c, q + 4, end);
        HexNonzero(c, q + 6);
        HexTokens(c, q + 6, end);
      }
    }
  }

  /** The same from inside a token. */
  lemma InsideStep(c: Str, p: nat, end: nat, room: nat)
    requires p < end < |c| && Scan(c, p + 1) == Some(end) && Count(c, p + 1) + 1 <= room
    requires TokenAt(c, p, end).Some?
    ensures var t := TokenAt(c, p, end).value; |t.bytes| <= room && Fits(c, p + t.length, end, room - |t.bytes|)
  {
    if c[p] == BACKSLASH && p + 1 < end {
      if c[p + 1] == BACKSLASH {
        EscapeToken(c, p + 1, end);
      } else {
        PlainToken(c, p + 1, end);
        if c[p + 1] == LETTER_U {
          hide Scan, Count, Hex4, FourHex, Utf8.Encoded;
          HexStep(c, p, p + 2, end);
        }
      }
    }
  }

  /** What a step of the second pass writes fits, wherever the two passes disagree about boundaries. */
  lemma StepFits(c: Str, p: nat, end: nat, room: int)
    requires p < end < |c| && Fits(c, p, end, room) && TokenAt(c, p, end).Some?
    ensures var t := TokenAt(c, p, end).value; |t.bytes| <= room && Fits(c, p + t.length, end, room - |t.bytes|)
  {
    hide Scan, Count, TokenAt;
    if Scan(c, p) == Some(end) && Count(c, p) <= room {
      BoundaryStep(c, p, end, room);
    } else {
      InsideStep(c, p, end, room);
    }
  }

  // ----- parse_string -----

  /** The string a byte sequence is when read up to its first NUL. */
  function CString(bytes: Str): (s: Str)
    ensures NulFree(s)
  {
    if bytes == [] || bytes[0] == 0 then [] else [bytes[0]] + CString(bytes[1..])
  }

  /** What `parse_string` makes of the literal at `o`. */
  function StringAt(c: Str, o: nat): Option<Parsed<Str>> {
    if o >= |c| || c[o] != QUOTE then None
    else
      var end := Scan(c, o + 1);
      if end.None? then None
      else
        var bytes := Decode(c, o + 1, end.value);
        if bytes.None? then None else Some(Parsed(CString(bytes.value), end.value + 1))
  }

  /** The first pass of `parse_string`, with the number of bytes it skips. */
  method EstimateLength(c: Str, start: nat) returns (end: Option<nat>, skipped: nat)
    requires start <= |c|
    ensures end == Scan(c, start)
    ensures end.Some? ==> skipped == end.value - start - Count(c, start)
  {
    var i := start;
    skipped := 0;
    while i < |c| && c[i] != QUOTE
      invariant start <= i <= |c|
      invariant Scan(c, i) == Scan(c, start)
      invariant Scan(c, i).Some? ==> Count(c, start) + skipped == Count(c, i) + (i - start)
    {
      if c[i] == BACKSLASH {
        if i + 1 >= |c| {
          return None, skipped;
        }
        skipped, i := skipped + 1, i + 1;
      }
      i := i + 1;
    }
    end := if i >= |c| then None else Some(i);
  }

  /** `utf16_literal_to_utf8`: writes the bytes at `w`; a length of 0 stands for failure. */
  method Utf16LiteralToUtf8(c: Str, p: nat, end: nat, output: array<byte>, w: nat) returns (length: nat,
      written: nat)
    requires p <= end <= |c|
    requires var t := Utf16At(c, p, end); t.Some? ==> w + |t.value.bytes| <= output.Length
    modifies output
    ensures var t := Utf16At(c, p, end);
      if t.None? then length == 0
      else
        && length == t.value.length && written == |t.value.bytes|
        && output[w..w + written] == t.value.bytes
    ensures w <= output.Length ==> output[..w] == old(output[..w])
  {
    hide Hex4, Utf8.Encoded;
    length, written := 0, 0;
    if end - p < 6 {
      return;
    }
    var first := ParseHex4(c, p + 2);
    var code := first;
    if 0xDC00 <= first <= 0xDFFF {
      return;
    }
    if 0xD800 <= first <= 0xDBFF {
      if end - (p + 6) < 6 || c[p + 6] != BACKSLASH || c[p + 7] != LETTER_U {
        return;
      }
      var second := ParseHex4(c, p + 8);
      if second < 0xDC00 || second > 0xDFFF {
        return;
      }
      length, code := 12, 0x10000 + (first - 0xD800) * 0x400 + (second - 0xDC00);
    } else {
      length := 6;
    }
    written := Utf8.Encode(output, w, code);
  }

  lemma StartFits(c: Str, p: nat, end: nat)
    requires p <= end < |c| && Scan(c, p) == Some(end)
    ensures Fits(c, p, end, Count(c, p))
  {
  }

  lemma RoomLeft(c: Str, p: nat, end: nat, room: int)
    requires Fits(c, p, end, room)
    ensures room >= 0
  {
  }

  lemma {:induction false} CStringOf(bytes: Str, n: nat)
    requires n < |bytes| && bytes[n] == 0
    ensures CString(bytes) == CString(bytes[..n])
  {
    if n > 0 && bytes[0] != 0 {
      CStringOf(bytes[1..], n - 1);
      assert bytes[1..][..n - 1] == bytes[..n][1..];
    }
  }

  /** One step of the decoding loop; a length of 0 stands for failure. */
  method DecodeToken(c: Str, p: nat, end: nat, output: array<byte>, w: nat) returns (length: nat,
      written: nat)
    requires p < end < |c| && w <= output.Length
    requires var t := TokenAt(c, p, end); t.Some? ==> w + |t.value.bytes| <= output.Length
    modifies output
    ensures var t := TokenAt(c, p, end);
      && (t.None? ==> length == 0)
      && (t.Some? ==> length == t.value.length && written == |t.value.bytes| && w + written <= output.Length)
      && (t.Some? ==> output[..w + written] == old(output[..w]) + t.value.bytes)
  {
    ghost var before := output[..w];
    length, written := 2, 1;
    if c[p] != BACKSLASH {
      output[w] := c[p];
      length := 1;
    } else if c[p + 1] == LETTER_U {
      hide Utf16At;
      length, written := Utf16LiteralToUtf8(c, p, end, output, w);
      if length == 0 {
        return;
      }
      assert output[..w + written] == output[..w] + output[w..w + written];
      return;
    } else {
      var plain := Simple(c[p + 1]);
      if plain.None? {
        return 0, 0;
      }
      output[w] := plain.value;
    }
    assert output[..w + 1] == before + [output[w]];
  }

  /** The second pass of `parse_string`: its bytes fit with one to spare beside the terminator. */
  method DecodeInto(c: Str, start: nat, end: nat, output: array<byte>) returns (w: Option<nat>)
    requires start <= end < |c| && Scan(c, start) == Some(end)
    requires output.Length == Count(c, start) + 2
    modifies output
    ensures w.Some? <==> Decode(c, start, end).Some?
    ensures w.Some? ==> w.value + 1 < output.Length && output[..w.value] == Decode(c, start, end).value
  {
    hide Scan, Count, TokenAt, Fits, Decode;
    var p, n: nat := start, 0;
    StartFits(c, p, end);
    assert output[..0] == [];
    EmptyPrefix(Decode(c, start, end));
    while p < end
      invariant n <= output.Length - 2 && Fits(c, p, end, output.Length - 2 - n)
      invariant Decode(c, start, end) == Prefixed(output[..n], Decode(c, p, end))
      decreases end - p
    {
      ghost var t, before := TokenAt(c, p, end), output[..n];
      DecodeStep(c, p, end);
      if t.Some? {
        StepFits(c, p, end, output.Length - 2 - n);
        PrefixedTwice(before, t.value.bytes, Decode(c, p + t.value.length, end));
        RoomLeft(c, p + t.value.length, end, output.Length - 2 - n - |t.value.bytes|);
      }
      var length, written := DecodeToken(c, p, end, output, n);
      if length == 0 {
        return None;
      }
      p, n := p + length, n + written;
    }
    DecodeEnd(c, p, end);
    assert output[..n] + [] == output[..n];
    return Some(n);
  }

  function Prefixed(a: Str, s: Option<Str>): Option<Str> {
    if s.None? then None else Some(a + s.value)
  }

  lemma EmptyPrefix(s: Option<Str>)
    ensures Prefixed([], s) == s
  {
    if s.Some? {
      assert [] + s.value == s.value;
    }
  }

  lemma PrefixedTwice(a: Str, b: Str, s: Option<Str>)
    ensures Prefixed(a, Prefixed(b, s)) == Prefixed(a + b, s)
  {
    if s.Some? {
      assert a + (b + s.value) == a + b + s.value;
    }
  }

  lemma DecodeStep(c: Str, p: nat, end: nat)
    requires p < end < |c|
    ensures var t := TokenAt(c, p, end);
      Decode(c, p, end) == if t.None? then None else Prefixed(t.value.bytes, Decode(c, p + t.value.length, end))
  {
  }

  lemma DecodeEnd(c: Str, p: nat, end: nat)
    requires end < |c| && p >= end
    ensures Decode(c, p, end) == Some([])
  {
  }

  /** `parse_string`: the literal at `o`, decoded into a buffer of the estimated size. */
  method ParseString(c: Str, o: nat) returns (result: Option<Parsed<Str>>)
    requires o < |c|
    ensures result == StringAt(c, o)
  {
    if c[o] != QUOTE {
      return None;
    }
    var end, skipped := EstimateLength(c, o + 1);
    if end.None? {
      return None;
    }
    var allocation := end.value - o - skipped;
    var output := new byte[allocation + 1](_ => 0);
    hide Scan, Count, Decode, CString;
    var w := DecodeInto(c, o + 1, end.value, output);
    if w.None? {
      return None;
    }
    ghost var bytes := output[..w.value];
    output[w.value] := 0;
    assert output[..][..w.value] == bytes;
    CStringOf(output[..], w.value);
    return Some(Parsed(CString(output[..]), end.value + 1));
  }
}
