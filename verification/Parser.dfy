/**
 The recursive-descent parser of cJSON.c as functions of the buffer, an offset in it, and the number of
 arrays and objects around. The buffer of a text includes its terminating NUL, which counts as white space;
 skipping white space up to the end of the buffer steps back by one byte. A parse that fails yields
 nothing, one that succeeds yields the item and the offset behind it.
 */
module Parser {
  import opened Prelude
  import opened Decimal
  import opened Json
  import opened StringCodec

  const COMMA: byte := 44
  const COLON: byte := 58
  const MINUS: byte := 45
  const DOT: byte := 46
  const OPEN_BRACKET: byte := 91
  const CLOSE_BRACKET: byte := 93
  const OPEN_BRACE: byte := 123
  const CLOSE_BRACE: byte := 125
  const NULL_WORD: Str := [110, 117, 108, 108]
  const FALSE_WORD: Str := [102, 97, 108, 115, 101]
  const TRUE_WORD: Str := [116, 114, 117, 101]
  const NESTING_LIMIT := 1000
  const INT_MAX := 0x7FFF_FFFF
  const INT_MIN := -0x8000_0000

  predicate ByteIs(c: Str, o: nat, b: byte) {
    o < |c| && c[o] == b
  }

  predicate StartsWith(c: Str, o: nat, word: Str) {
    o + |word| <= |c| && c[o..o + |word|] == word
  }

  // ----- white space -----

  function SkipBlank(c: Str, o: nat): (p: nat)
    requires o <= |c|
    ensures o <= p <= |c|
    ensures p < |c| ==> c[p] > 32
    decreases |c| - o
  {
    if o < |c| && c[o] <= 32 then SkipBlank(c, o + 1) else o
  }

  /** `buffer_skip_whitespace`: it steps back from the end of the buffer if it skipped up to it. */
  function Skip(c: Str, o: nat): (p: nat)
    requires o <= |c|
    ensures o <= p <= |c|
  {
    if o == |c| then o
    else
      var p := SkipBlank(c, o);
      if p == |c| then p - 1 else p
  }

  // ----- numbers -----

  predicate NumberByte(b: byte) {
    IsDigit(b) || b == 43 || b == MINUS || b == 101 || b == 69 || b == DOT
  }

  /** The end of the bytes that are copied for `strtod`, at most `left` of them. */
  function NumberEnd(c: Str, o: nat, left: nat): (end: nat)
    requires o <= |c|
    ensures o <= end <= |c| && end <= o + left
    decreases left
  {
    if left > 0 && o < |c| && NumberByte(c[o]) then NumberEnd(c, o + 1, left - 1) else o
  }

  function DigitsEnd(t: Str, i: nat): (j: nat)
    requires i <= |t|
    ensures i <= j <= |t|
    ensures forall k | i <= k < j :: IsDigit(t[k])
    decreases |t| - i
  {
    if i < |t| && IsDigit(t[i]) then DigitsEnd(t, i + 1) else i
  }

  /** How much of the text `strtod` takes for a number: sign, digits with a point, exponent. */
  function StrtodLength(t: Str): (n: nat)
    ensures n <= |t|
  {
    var i := if |t| > 0 && (t[0] == 43 || t[0] == MINUS) then 1 else 0;
    var j := DigitsEnd(t, i);
    var k := if ByteIs(t, j, DOT) then DigitsEnd(t, j + 1) else j;
    if j == i && (k == j || k == j + 1) then 0
    else if k < |t| && (t[k] == 101 || t[k] == 69) then
      var s := if k + 1 < |t| && (t[k + 1] == 43 || t[k + 1] == MINUS) then k + 2 else k + 1;
      var e := DigitsEnd(t, s);
      if e > s then e else k
    else k
  }

  predicate AllDigits(s: Str) {
    s != [] && forall i | 0 <= i < |s| :: IsDigit(s[i])
  }

  /** The item for a numeral: by value if it is written as an `int`, by its literal otherwise. */
  function NumberItem(t: Str): Json {
    var digits := if t != [] && t[0] == MINUS then t[1..] else t;
    if AllDigits(digits) then
      var n := if t[0] == MINUS then -NumberOf(digits) else NumberOf(digits);
      if INT_MIN <= n <= INT_MAX then Number(n) else Real(t)
    else Real(t)
  }

  /** `parse_number`. */
  function NumberAt(c: Str, o: nat): (r: Option<Parsed<Json>>)
    requires o <= |c|
    ensures r.Some? ==> o < r.value.next <= |c|
  {
    var t := c[o..NumberEnd(c, o, 63)];
    var n := StrtodLength(t);
    if n == 0 then None else Some(Parsed(NumberItem(t[..n]), o + n))
  }

  // ----- values -----

  /** `parse_value`, with `depth` arrays and objects around. */
  function ValueAt(c: Str, o: nat, depth: nat): (r: Option<Parsed<Json>>)
    requires o <= |c|
    ensures r.Some? ==> o < r.value.next <= |c|
    decreases |c| - o, 0
  {
    if StartsWith(c, o, NULL_WORD) then Some(Parsed(Null, o + 4))
    else if StartsWith(c, o, FALSE_WORD) then Some(Parsed(False, o + 5))
    else if StartsWith(c, o, TRUE_WORD) then Some(Parsed(True, o + 4))
    else if ByteIs(c, o, QUOTE) then
      var s := StringAt(c, o);
      if s.None? then None else Some(Parsed(String(s.value.value), s.value.next))
    else if o < |c| && (c[o] == MINUS || IsDigit(c[o])) then NumberAt(c, o)
    else if ByteIs(c, o, OPEN_BRACKET) then ArrayAt(c, o, depth)
    else if ByteIs(c, o, OPEN_BRACE) then ObjectAt(c, o, depth)
    else None
  }

  /** `parse_array`. */
  function ArrayAt(c: Str, o: nat, depth: nat): (r: Option<Parsed<Json>>)
    requires ByteIs(c, o, OPEN_BRACKET)
    ensures r.Some? ==> o < r.value.next <= |c|
    decreases |c| - o - 1, 2
  {
    if depth >= NESTING_LIMIT then None
    else
      var p := Skip(c, o + 1);
      if ByteIs(c, p, CLOSE_BRACKET) then Some(Parsed(Array([]), p + 1))
      else if p >= |c| then None
      else
        var items := ItemsAt(c, p, depth + 1);
        if items.None? then None else Some(Parsed(Array(items.value.value), items.value.next))
  }

  /** Its loop: the elements from `p` on and the closing bracket. */
  function ItemsAt(c: Str, p: nat, depth: nat): (r: Option<Parsed<seq<Json>>>)
    requires p <= |c|
    ensures r.Some? ==> p < r.value.next <= |c|
    decreases |c| - p, 1
  {
    var first := ValueAt(c, Skip(c, p), depth);
    if first.None? then None
    else
      var q := Skip(c, first.value.next);
      if ByteIs(c, q, COMMA) then
        var rest := ItemsAt(c, q + 1, depth);
        if rest.None? then None else Some(Parsed([first.value.value] + rest.value.value, rest.value.next))
      else if ByteIs(c, q, CLOSE_BRACKET) then Some(Parsed([first.value.value], q + 1))
      else None
  }

  /** `parse_object`. */
  function ObjectAt(c: Str, o: nat, depth: nat): (r: Option<Parsed<Json>>)
    requires ByteIs(c, o, OPEN_BRACE)
    ensures r.Some? ==> o < r.value.next <= |c|
    decreases |c| - o - 1, 2
  {
    if depth >= NESTING_LIMIT then None
    else
      var p := Skip(c, o + 1);
      if ByteIs(c, p, CLOSE_BRACE) then Some(Parsed(Object([]), p + 1))
      else if p >= |c| then None
      else
        var members := MembersAt(c, p, depth + 1);
        if members.None? then None else Some(Parsed(Object(members.value.value), members.value.next))
  }

  /** Its loop: the members from `p` on and the closing brace. */
  function MembersAt(c: Str, p: nat, depth: nat): (r: Option<Parsed<seq<Member>>>)
    requires p <= |c|
    ensures r.Some? ==> p < r.value.next <= |c|
    decreases |c| - p, 1
  {
    var name := NameAt(c, p);
    if name.None? then None
    else
      var value := ValueAt(c, Skip(c, name.value.next), depth);
      if value.None? then None
      else
        var m, q := Member(name.value.value, value.value.value), Skip(c, value.value.next);
        if ByteIs(c, q, COMMA) then
          var rest := MembersAt(c, q + 1, depth);
          if rest.None? then None else Some(Parsed([m] + rest.value.value, rest.value.next))
        else if ByteIs(c, q, CLOSE_BRACE) then Some(Parsed([m], q + 1))
        else None
  }

  /** The name of a member and the colon behind it. */
  function NameAt(c: Str, p: nat): (r: Option<Parsed<Str>>)
    requires p <= |c|
    ensures r.Some? ==> p < r.value.next <= |c|
  {
    if p == |c| then None
    else
      var name := StringAt(c, Skip(c, p));
      if name.None? then None
      else
        var q := Skip(c, name.value.next);
        if ByteIs(c, q, COLON) then Some(Parsed(name.value.value, q + 1)) else None
  }

  /** `skip_utf8_bom` at the start of the buffer. */
  function BomLength(c: Str): (n: nat)
    ensures n <= |c|
  {
    if |c| > 4 && c[0] == 0xEF && c[1] == 0xBB && c[2] == 0xBF then 3 else 0
  }

  /** `cJSON_ParseWithLengthOpts`: the item and the end of the parse. */
  function Parse(c: Str, requireEnd: bool): Option<Parsed<Json>> {
    if c == [] then None
    else
      var v := ValueAt(c, Skip(c, BomLength(c)), 0);
      if v.None? || !requireEnd then v
      else
        var q := Skip(c, v.value.next);
        if ByteIs(c, q, 0) then Some(Parsed(v.value.value, q)) else None
  }

  /** `cJSON_ParseWithOpts`: the text with its terminating NUL. */
  function ParseText(text: Str, requireEnd: bool): Option<Parsed<Json>> {
    Parse(text + [0], requireEnd)
  }
}
