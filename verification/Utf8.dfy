/** UTF-8: the encoder of utf16_literal_to_utf8, and RFC 3629 to hold it against. */
module Utf8 {
  import opened Prelude

  predicate Surrogate(code: int) {
    0xD800 <= code <= 0xDFFF
  }

  /** The bytes of a code point, by section 3 of RFC 3629. */
  function Encoded(code: nat): (s: Str)
    requires code <= 0x10FFFF
    ensures 1 <= |s| <= 4
  {
    if code < 0x80 then [code]
    else if code < 0x800 then [0xC0 + code / 0x40, 0x80 + code % 0x40]
    else if code < 0x10000 then [0xE0 + code / 0x1000, 0x80 + code / 0x40 % 0x40, 0x80 + code % 0x40]
    else [0xF0 + code / 0x40000, 0x80 + code / 0x1000 % 0x40, 0x80 + code / 0x40 % 0x40, 0x80 + code % 0x40]
  }

  predicate Tail(s: Str, i: nat) {
    i < |s| && 0x80 <= s[i] <= 0xBF
  }

  /** The length of the character `s` starts with by the grammar of section 4 of RFC 3629, or 0. */
  function CharLength(s: Str): (n: nat)
    ensures n <= |s|
  {
    if s == [] then 0
    else if s[0] < 0x80 then 1
    else if 0xC2 <= s[0] <= 0xDF then (if Tail(s, 1) then 2 else 0)
    else if 0xE0 <= s[0] <= 0xEF then
      if Tail(s, 1) && Tail(s, 2) && (s[0] == 0xE0 ==> s[1] >= 0xA0) && (s[0] == 0xED ==> s[1] <= 0x9F) then 3 else 0
    else if 0xF0 <= s[0] <= 0xF4 then
      if Tail(s, 1) && Tail(s, 2) && Tail(s, 3) && (s[0] == 0xF0 ==> s[1] >= 0x90)
          && (s[0] == 0xF4 ==> s[1] <= 0x8F) then 4 else 0
    else 0
  }

  predicate Valid(s: Str)
    decreases |s|
  {
    s != [] ==> CharLength(s) > 0 && Valid(s[CharLength(s)..])
  }

  /** The code point of the character `s` starts with. */
  function CodePoint(s: Str): int
    requires CharLength(s) > 0
  {
    var a: int := s[0];
    if CharLength(s) == 1 then a
    else
      var b: int := s[1];
      if CharLength(s) == 2 then (a - 0xC0) * 0x40 + (b - 0x80)
      else
        var c: int := s[2];
        if CharLength(s) == 3 then (a - 0xE0) * 0x1000 + (b - 0x80) * 0x40 + (c - 0x80)
        else
          var d: int := s[3];
          (a - 0xF0) * 0x40000 + (b - 0x80) * 0x1000 + (c - 0x80) * 0x40 + (d - 0x80)
  }

  lemma Sextets(code: nat)
    ensures code == code / 0x1000 * 0x1000 + code / 0x40 % 0x40 * 0x40 + code % 0x40
    ensures code == code / 0x40000 * 0x40000 + code / 0x1000 % 0x40 * 0x1000 + code / 0x40 % 0x40 * 0x40 + code % 0x40
  {
    assert code / 0x1000 == code / 0x40 / 0x40;
    assert code / 0x40000 == code / 0x1000 / 0x40;
  }

  /** What the encoder writes for a scalar value is a well-formed character that stands for it. */
  lemma EncodedIsValid(code: nat, rest: Str)
    requires code <= 0x10FFFF && !Surrogate(code)
    ensures CharLength(Encoded(code) + rest) == |Encoded(code)|
    ensures CodePoint(Encoded(code) + rest) == code
    ensures (Encoded(code) + rest)[|Encoded(code)|..] == rest
  {
    Sextets(code);
    EncodedStarts(code, rest);
  }

  lemma EncodedStarts(code: nat, rest: Str)
    requires code <= 0x10FFFF && !Surrogate(code)
    ensures CharLength(Encoded(code) + rest) == |Encoded(code)|
  {
    var e := Encoded(code);
    var s := e + rest;
    assert forall i | 0 <= i < |e| :: s[i] == e[i];
    if code < 0x80 {
    } else if code < 0x800 {
    } else if code < 0x10000 {
      assert code / 0x1000 == code / 0x40 / 0x40;
    } else {
      assert code / 0x40000 == code / 0x1000 / 0x40;
    }
  }

  lemma Sextet(high: nat, low: nat)
    requires low < 0x40
    ensures (0x40 * high + low) / 0x40 == high && (0x40 * high + low) % 0x40 == low
  {
  }

  lemma TwoEncoded(a: int, b: int)
    requires 2 <= a < 0x20 && 0 <= b < 0x40
    ensures Encoded(a * 0x40 + b) == [0xC0 + a, 0x80 + b]
  {
    Sextet(a, b);
  }

  lemma ThreeEncoded(a: int, b: int, c: int)
    requires 0 <= a < 0x10 && 0 <= b < 0x40 && 0 <= c < 0x40 && (a == 0 ==> b >= 0x20)
    ensures Encoded(a * 0x1000 + b * 0x40 + c) == [0xE0 + a, 0x80 + b, 0x80 + c]
  {
    Sextet(a, b);
    Sextet(0x40 * a + b, c);
    SextetsDivide(a * 0x1000 + b * 0x40 + c);
  }

  lemma FourEncoded(a: int, b: int, c: int, d: int)
    requires 0 <= a < 5 && 0 <= b < 0x40 && 0 <= c < 0x40 && 0 <= d < 0x40
    requires (a == 0 ==> b >= 0x10) && (a == 4 ==> b < 0x10)
    ensures Encoded(a * 0x40000 + b * 0x1000 + c * 0x40 + d) == [0xF0 + a, 0x80 + b, 0x80 + c, 0x80 + d]
  {
    Sextet(a, b);
    Sextet(0x40 * a + b, c);
    Sextet(0x1000 * a + 0x40 * b + c, d);
    SextetsDivide(a * 0x40000 + b * 0x1000 + c * 0x40 + d);
  }

  /** And whatever is taken for a character is the encoding of the scalar value it stands for. */
  lemma CharacterIsEncoded(s: Str)
    requires CharLength(s) > 0
    ensures 0 <= CodePoint(s) <= 0x10FFFF && !Surrogate(CodePoint(s))
    ensures s[..CharLength(s)] == Encoded(CodePoint(s))
  {
    var n := CharLength(s);
    if n == 1 {
      assert s[..1] == Encoded(CodePoint(s));
    } else if n == 2 {
      TwoEncoded(s[0] - 0xC0, s[1] - 0x80);
      hide Encoded;
    } else if n == 3 {
      ThreeEncoded(s[0] - 0xE0, s[1] - 0x80, s[2] - 0x80);
      hide Encoded;
    } else {
      FourEncoded(s[0] - 0xF0, s[1] - 0x80, s[2] - 0x80, s[3] - 0x80);
      hide Encoded;
    }
  }

  lemma SextetsDivide(code: nat)
    ensures code / 0x1000 == code / 0x40 / 0x40 && code / 0x40000 == code / 0x1000 / 0x40
  {
  }

  lemma {:induction false} ValidConcat(a: Str, b: Str)
    requires Valid(a) && Valid(b)
    ensures Valid(a + b)
    decreases |a|
  {
    if a == [] {
      assert a + b == b;
    } else {
      var n := CharLength(a);
      assert forall i | 0 <= i < |a| :: (a + b)[i] == a[i];
      assert CharLength(a + b) == n;
      assert (a + b)[n..] == a[n..] + b;
      ValidConcat(a[n..], b);
    }
  }

  // ----- the bit operations of the encoder -----

  /** `(codepoint | 0x80) & 0xBF`, `(codepoint | first_byte_mark) & 0xFF` and `codepoint & 0x7F` are sums. */
  lemma EncoderBits(c: bv32)
    ensures (c | 0x80) & 0xBF == 0x80 + (c & 0x3F)
    ensures c & 0x3F == c % 64 && c >> 6 == c / 64
    ensures c < 0x20 ==> (c | 0xC0) & 0xFF == 0xC0 + c
    ensures c < 0x10 ==> (c | 0xE0) & 0xFF == 0xE0 + c
    ensures c < 0x08 ==> (c | 0xF0) & 0xFF == 0xF0 + c
    ensures c < 0x80 ==> c & 0x7F == c
  {
  }

  /** The combination of two surrogates is a sum. */
  lemma SurrogateBits(first: bv32, second: bv32)
    requires 0xD800 <= first <= 0xDBFF && 0xDC00 <= second <= 0xDFFF
    ensures ((first & 0x3FF) << 10) | (second & 0x3FF) == (first - 0xD800) * 0x400 + (second - 0xDC00)
  {
  }

  /** The encoding loop: continuation bytes from the last one back, then the first byte. */
  method Encode(output: array<byte>, w: nat, code: nat) returns (length: nat)
    requires code <= 0x10FFFF && w + |Encoded(code)| <= output.Length
    modifies output
    ensures length == |Encoded(code)| && output[w..w + length] == Encoded(code)
    ensures output[..w] == old(output[..w])
  {
    var mark: nat := 0;
    if code < 0x80 {
      length := 1;
    } else if code < 0x800 {
      length, mark := 2, 0xC0;
    } else if code < 0x10000 {
      length, mark := 3, 0xE0;
    } else {
      length, mark := 4, 0xF0;
    }
    var top := EncodeTail(output, w, code, length);
    EncodedBytes(code);
    output[w] := if length > 1 then top + mark else top;
    hide Encoded, Shifted;
    assert forall i | 0 <= i < length :: output[w..w + length][i] == Encoded(code)[i];
  }

  /** Its loop over the continuation bytes. */
  method EncodeTail(output: array<byte>, w: nat, code: nat, length: nat) returns (rest: nat)
    requires code <= 0x10FFFF && length == |Encoded(code)| && w + length <= output.Length
    modifies output
    ensures rest == Shifted(code, length - 1)
    ensures forall i | 0 < i < length :: output[w + i] == Encoded(code)[i]
    ensures output[..w] == old(output[..w])
  {
    ghost var e := Encoded(code);
    EncodedBytes(code);
    hide Encoded;
    var position := length - 1;
    rest := code;
    while position > 0
      invariant 0 <= position < length
      invariant rest == Shifted(code, length - 1 - position)
      invariant forall i | position < i < length :: output[w + i] == e[i]
      invariant output[..w] == old(output[..w])
    {
      output[w + position] := 0x80 + rest % 0x40;
      assert output[w + position] == e[position];
      rest, position := rest / 0x40, position - 1;
    }
  }

  function Shifted(code: nat, sextets: nat): nat {
    if sextets == 0 then code else Shifted(code, sextets - 1) / 0x40
  }

  /** Each byte carries six bits more of the code point than the next. */
  lemma EncodedBytes(code: nat)
    requires code <= 0x10FFFF
    ensures var e := Encoded(code); var top := Shifted(code, |e| - 1);
      && (forall i | 0 < i < |e| :: e[i] == 0x80 + Shifted(code, |e| - 1 - i) % 0x40)
      && e[0] == (if |e| == 1 then 0 else if |e| == 2 then 0xC0 else if |e| == 3 then 0xE0 else 0xF0) + top
  {
    assert Shifted(code, 1) == code / 0x40;
    assert Shifted(code, 2) == code / 0x40 / 0x40 == code / 0x1000;
    assert Shifted(code, 3) == code / 0x1000 / 0x40 == code / 0x40000;
  }
}
