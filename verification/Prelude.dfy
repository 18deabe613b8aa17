/** Bytes, C strings and their orders, and the option type shared by the other modules. */
module Prelude {

  datatype Option<+T> = None | Some(value: T)

  type byte = x: int | 0 <= x < 256

  /** The bytes of a C string, without its terminating NUL. */
  type Str = seq<byte>

  /** The bytes of an ASCII text. */
  function Ascii(text: string): (s: Str)
    requires forall i | 0 <= i < |text| :: text[i] < 128 as char
    ensures |s| == |text|
  {
    seq(|text|, i requires 0 <= i < |text| => text[i] as int)
  }

  /** `items` without the one at `k`. */
  function Without<T>(items: seq<T>, k: nat): (r: seq<T>)
    requires k < |items|
    ensures |r| == |items| - 1
  {
    items[..k] + items[k + 1..]
  }

  /** `items` with `item` before the one at `k`. */
  function With<T>(items: seq<T>, k: nat, item: T): (r: seq<T>)
    requires k <= |items|
    ensures |r| == |items| + 1
  {
    items[..k] + [item] + items[k..]
  }

  lemma WithoutIndex<T>(items: seq<T>, k: nat)
    requires k < |items|
    ensures forall i | 0 <= i < |items| - 1 :: Without(items, k)[i] == items[if i < k then i else i + 1]
  {
  }

  lemma WithAtEnd<T>(items: seq<T>, c: T)
    ensures With(items, |items|, c) == items + [c]
  {
  }

  lemma WithIndex<T>(items: seq<T>, k: nat, item: T)
    requires k <= |items|
    ensures forall i | 0 <= i <= |items| ::
      With(items, k, item)[i] == if i == k then item else items[if i < k then i else i - 1]
  {
  }

  predicate NulFree(s: Str) {
    0 !in s
  }

  /** `tolower` in the C locale. */
  function Lower(c: byte): byte {
    if 65 <= c <= 90 then c + 32 else c
  }

  const CAPITALS: Str := Ascii("ABCDEFGHIJKLMNOPQRSTUVWXYZ")
  const SMALL: Str := Ascii("abcdefghijklmnopqrstuvwxyz")

  lemma CapitalBytes()
    ensures |CAPITALS| == 26 && forall k | 0 <= k < 26 :: CAPITALS[k] == 65 + k
  {
  }

  lemma SmallBytes()
    ensures |SMALL| == 26 && forall k | 0 <= k < 26 :: SMALL[k] == 97 + k
  {
  }

  /** The capital letters become small ones, and no other byte changes. */
  lemma LowerExactly(c: byte, k: nat)
    requires k < 26
    ensures |CAPITALS| == |SMALL| == 26 && Lower(CAPITALS[k]) == SMALL[k]
    ensures c !in CAPITALS ==> Lower(c) == c
  {
    CapitalBytes();
    SmallBytes();
    hide CAPITALS, SMALL;
    assert 65 <= c <= 90 ==> c == CAPITALS[c - 65];
  }

  /** What a key is compared by: itself if keys are `cased` (compared case-sensitively), else its lower-case form. */
  function Fold(cased: bool, s: Str): (f: Str)
    ensures |f| == |s|
  {
    if cased then s else seq(|s|, i requires 0 <= i < |s| => Lower(s[i]))
  }

  /** The sign of `strcmp`. */
  function Lex(a: Str, b: Str): int {
    if a == [] then (if b == [] then 0 else -1)
    else if b == [] then 1
    else if a[0] < b[0] then -1
    else if a[0] > b[0] then 1
    else Lex(a[1..], b[1..])
  }

  /** The sign of `compare_strings`. */
  function Order(cased: bool, a: Str, b: Str): int {
    Lex(Fold(cased, a), Fold(cased, b))
  }

  lemma {:induction false} LexTotal(a: Str, b: Str)
    ensures Lex(a, b) == 0 <==> a == b
    ensures Lex(a, b) == -Lex(b, a)
  {
    if a != [] && b != [] {
      LexTotal(a[1..], b[1..]);
      assert a == [a[0]] + a[1..] && b == [b[0]] + b[1..];
    }
  }

  lemma {:induction false} LexTransitive(a: Str, b: Str, c: Str)
    requires Lex(a, b) <= 0 && Lex(b, c) <= 0
    ensures Lex(a, c) <= 0
    ensures Lex(a, b) < 0 || Lex(b, c) < 0 ==> Lex(a, c) < 0
  {
    if a != [] && b != [] && c != [] && a[0] == b[0] == c[0] {
      LexTransitive(a[1..], b[1..], c[1..]);
    }
  }

  /** From the `k`-th byte on `a` is below `b`: it ends there, or has the smaller byte. */
  predicate BelowAt(a: Str, b: Str, k: nat) {
    k <= |a| && k < |b| && a[..k] == b[..k] && (k == |a| || a[k] < b[k])
  }

  /** One string is below another exactly if it is at their first difference. */
  lemma {:induction false} LexExactly(a: Str, b: Str)
    ensures Lex(a, b) < 0 <==> exists k: nat :: BelowAt(a, b, k)
  {
    if b == [] {
    } else if a == [] || a[0] < b[0] {
      assert BelowAt(a, b, 0);
    } else if a[0] == b[0] {
      LexExactly(a[1..], b[1..]);
      if k: nat :| BelowAt(a[1..], b[1..], k) {
        assert a[..k + 1] == [a[0]] + a[1..][..k] && b[..k + 1] == [b[0]] + b[1..][..k];
        assert BelowAt(a, b, k + 1);
      }
      if k: nat :| BelowAt(a, b, k) {
        assert k > 0 && a[1..][..k - 1] == a[..k][1..] && b[1..][..k - 1] == b[..k][1..];
        assert BelowAt(a[1..], b[1..], k - 1);
      }
    } else {
      forall k: nat ensures !BelowAt(a, b, k) {
        assert k > 0 && k <= |a| && k <= |b| ==> a[..k][0] == a[0] && b[..k][0] == b[0];
      }
    }
  }

  /** The loop of `compare_strings`: both strings followed while their folded bytes agree. */
  method CompareStrings(cased: bool, a: Str, b: Str) returns (diff: int)
    requires NulFree(a) && NulFree(b)
    ensures diff < 0 <==> Order(cased, a, b) < 0
    ensures diff == 0 <==> Order(cased, a, b) == 0
  {
    var x, y := Fold(cased, a), Fold(cased, b);
    var i := 0;
    while i < |x| && i < |y| && x[i] == y[i]
      invariant i <= |x| && i <= |y|
      invariant Lex(x[i..], y[i..]) == Lex(x, y)
    {
      i := i + 1;
    }
    var cx: int, cy: int := if i < |x| then x[i] else 0, if i < |y| then y[i] else 0;
    assert i < |x| ==> a[i] in a && x[i] != 0;
    assert i < |y| ==> b[i] in b && y[i] != 0;
    diff := cx - cy;
  }
}
