/** What MD5 stores and rotates, and a digest of RFC 1321's test suite. */
module Md5Values {
  import opened Md5

  // ----- words and bytes -----

  /** The output is the registers, each as the bytes of a word, the low-order one first. */
  lemma OutputIsRfc(r: Regs)
    ensures var s := Output(r);
      && |s| == 16 && RfcWord(s[0], s[1], s[2], s[3]) == r.a && RfcWord(s[4], s[5], s[6], s[7]) == r.b
      && RfcWord(s[8], s[9], s[10], s[11]) == r.c && RfcWord(s[12], s[13], s[14], s[15]) == r.d
  {
    hide RfcWord;
    WordReadBack(r.a);
    WordReadBack(r.b);
    WordReadBack(r.c);
    WordReadBack(r.d);
  }

  lemma WordReadBack(v: bv32)
    ensures var s := WordBytes(v); RfcWord(s[0], s[1], s[2], s[3]) == v
  {
    hide LoadWord, RfcWord;
    var s := WordBytes(v);
    WordLoaded(v);
    WordAgrees(s[0], s[1], s[2], s[3]);
  }

  lemma WordLoaded(v: bv32)
    ensures var s := WordBytes(v); LoadWord(s[0], s[1], s[2], s[3]) == v
  {
  }

  // ----- rotation -----

  /** Bit `i`, counted from the low-order end. */
  predicate Bit(v: bv32, i: bv32)
    requires i < 32
  {
    (v >> i) & 1 == 1
  }

  lemma LowBits(v: bv32, s: bv32, i: bv32)
    requires 0 < s < 32 && i < 32 - s
    ensures i + s < 32 && Bit((v << s) | (v >> (32 - s)), i + s) == Bit(v, i)
  {
    assert (((v << s) | (v >> (32 - s))) >> (i + s)) & 1 == (v >> i) & 1;
  }

  lemma HighBits(v: bv32, s: bv32, i: bv32)
    requires 0 < s < 32 && 32 - s <= i < 32
    ensures i + s - 32 < 32 && Bit((v << s) | (v >> (32 - s)), i + s - 32) == Bit(v, i)
  {
    assert (((v << s) | (v >> (32 - s))) >> (i + s - 32)) & 1 == (v >> i) & 1;
  }

  /** Rotating by `s` carries bit `i` to bit `i + s` modulo 32. */
  lemma RotateCarries(v: bv32, s: bv32, i: bv32)
    requires 0 < s < 32 && i < 32
    ensures i < 32 - s ==> i + s < 32 && Bit(Rotate(v, s), i + s) == Bit(v, i)
    ensures i >= 32 - s ==> i + s - 32 < 32 && Bit(Rotate(v, s), i + s - 32) == Bit(v, i)
  {
    hide Bit;
    if i < 32 - s {
      LowBits(v, s, i);
    } else {
      HighBits(v, s, i);
    }
  }

  // ----- a digest -----

  /** The text "abc", padded, as words. */
  const ABC: seq<bv32> := [0x80636261, 0, 0, 0, 0, 0, 0, 0, 0, 0, 0, 0, 0, 0, 0x18, 0]

  lemma Abc1a()
    ensures Quad(0, Regs(0x67452301, 0xefcdab89, 0x98badcfe, 0x10325476),
                 0x80636261, 0xd76aa478, 7, 0, 0xe8c7b756, 12, 0, 0x242070db, 17, 0, 0xc1bdceee, 22)
         == Regs(0xd6d117b4, 0x7ad956f2, 0x2f6fbd72, 0x344a8432)
    ensures Quad(0, Regs(0xd6d117b4, 0x7ad956f2, 0x2f6fbd72, 0x344a8432),
                 0, 0xf57c0faf, 7, 0, 0x4787c62a, 12, 0, 0xa8304613, 17, 0, 0xfd469501, 22)
         == Regs(0xc73741ef, 0x928d99f6, 0x207dc67b, 0x8bac3051)
  {
  }

  lemma Abc1b()
    ensures Quad(0, Regs(0xc73741ef, 0x928d99f6, 0x207dc67b, 0x8bac3051),
                 0, 0x698098d8, 7, 0, 0x8b44f7af, 12, 0, 0xffff5bb1, 17, 0, 0x895cd7be, 22)
         == Regs(0x854b3712, 0x5ed49596, 0x3020401c, 0x74e2f284)
    ensures Quad(0, Regs(0x854b3712, 0x5ed49596, 0x3020401c, 0x74e2f284),
                 0, 0x6b901122, 7, 0, 0xfd987193, 12, 0x18, 0xa679438e, 17, 0, 0x49b40821, 22)
         == Regs(0xdda9b9a6, 0x72aff2e0, 0xe396856b, 0xa1051895)
  {
  }

  lemma AbcRound1()
    ensures Round1(Start(), ABC)
         == Regs(0xdda9b9a6, 0x72aff2e0, 0xe396856b, 0xa1051895)
  {
    hide Quad;
    Abc1a();
    Abc1b();
  }

  lemma Abc2a()
    ensures Quad(1, Regs(0xdda9b9a6, 0x72aff2e0, 0xe396856b, 0xa1051895),
                 0, 0xf61e2562, 5, 0, 0xc040b340, 9, 0, 0x265e5a51, 14, 0x80636261, 0xe9b6c7aa, 20)
         == Regs(0x3e9e9126, 0xb5b204e4, 0xe25e1652, 0x4a1d804e)
    ensures Quad(1, Regs(0x3e9e9126, 0xb5b204e4, 0xe25e1652, 0x4a1d804e),
                 0, 0xd62f105d, 5, 0, 0x02441453, 9, 0, 0xd8a1e681, 14, 0, 0xe7d3fbc8, 20)
         == Regs(0x59a8ffda, 0x47092c07, 0xabfc7920, 0x6d002f1e)
  {
  }

  lemma Abc2b()
    ensures Quad(1, Regs(0x59a8ffda, 0x47092c07, 0xabfc7920, 0x6d002f1e),
                 0, 0x21e1cde6, 5, 0x18, 0xc33707d6, 9, 0, 0xf4d50d87, 14, 0, 0x455a14ed, 20)
         == Regs(0xb7f268cf, 0x786acb8f, 0xfe1623b1, 0x09388eff)
    ensures Quad(1, Regs(0xb7f268cf, 0x786acb8f, 0xfe1623b1, 0x09388eff),
                 0, 0xa9e3e905, 5, 0, 0xfcefa3f8, 9, 0, 0x676f02d9, 14, 0, 0x8d2a4c8a, 20)
         == Regs(0x790a77fb, 0x726342d3, 0xa62884aa, 0x9f47e4f8)
  {
  }

  lemma AbcRound2()
    ensures Round2(Regs(0xdda9b9a6, 0x72aff2e0, 0xe396856b, 0xa1051895), ABC)
         == Regs(0x790a77fb, 0x726342d3, 0xa62884aa, 0x9f47e4f8)
  {
    hide Quad;
    Abc2a();
    Abc2b();
  }

  lemma Abc3a()
    ensures Quad(2, Regs(0x790a77fb, 0x726342d3, 0xa62884aa, 0x9f47e4f8),
                 0, 0xfffa3942, 4, 0, 0x8771f681, 11, 0, 0x6d9d6122, 16, 0x18, 0xfde5380c, 23)
         == Regs(0xb3707ebf, 0x3b0875c7, 0x8d212ff5, 0x60127b2e)
    ensures Quad(2, Regs(0xb3707ebf, 0x3b0875c7, 0x8d212ff5, 0x60127b2e),
                 0, 0xa4beea44, 4, 0, 0x4bdecfa9, 11, 0, 0xf6bb4b60, 16, 0, 0xbebfbc70, 23)
         == Regs(0x21b117b9, 0x5a2f5ea5, 0x3575227e, 0x6e7429d5)
  {
  }

  lemma Abc3b()
    ensures Quad(2, Regs(0x21b117b9, 0x5a2f5ea5, 0x3575227e, 0x6e7429d5),
                 0, 0x289b7ec6, 4, 0x80636261, 0xeaa127fa, 11, 0, 0xd4ef3085, 16, 0, 0x04881d05, 23)
         == Regs(0x11de1779, 0x4c6124f4, 0x31c465ca, 0xfadcaa38)
    ensures Quad(2, Regs(0x11de1779, 0x4c6124f4, 0x31c465ca, 0xfadcaa38),
                 0, 0xd9d4d039, 4, 0, 0xe6db99e5, 11, 0, 0x1fa27cf8, 16, 0, 0xc4ac5665, 23)
         == Regs(0x7f2e507b, 0x7beb9700, 0x8fae6399, 0x99d9679d)
  {
  }

  lemma AbcRound3()
    ensures Round3(Regs(0x790a77fb, 0x726342d3, 0xa62884aa, 0x9f47e4f8), ABC)
         == Regs(0x7f2e507b, 0x7beb9700, 0x8fae6399, 0x99d9679d)
  {
    hide Quad;
    Abc3a();
    Abc3b();
  }

  lemma Abc4a()
    ensures Quad(3, Regs(0x7f2e507b, 0x7beb9700, 0x8fae6399, 0x99d9679d),
                 0x80636261, 0xf4292244, 6, 0, 0x432aff97, 10, 0x18, 0xab9423a7, 15, 0, 0xfc93a039, 21)
         == Regs(0x7b201df8, 0x8bf025c4, 0xb298cefd, 0xf4e8e96e)
    ensures Quad(3, Regs(0x7b201df8, 0x8bf025c4, 0xb298cefd, 0xf4e8e96e),
                 0, 0x655b59c3, 6, 0, 0x8f0ccc92, 10, 0, 0xffeff47d, 15, 0, 0x85845dd1, 21)
         == Regs(0x06cc5e8a, 0x3bfa2c27, 0x7d632dd0, 0x5b0d97aa)
  {
  }

  lemma Abc4b()
    ensures Quad(3, Regs(0x06cc5e8a, 0x3bfa2c27, 0x7d632dd0, 0x5b0d97aa),
                 0, 0x6fa87e4f, 6, 0, 0xfe2ce6e0, 10, 0, 0xa3014314, 15, 0, 0x4e0811a1, 21)
         == Regs(0x7f81cc35, 0x7327d604, 0x4f9dbe3f, 0x094454ab)
    ensures Quad(3, Regs(0x7f81cc35, 0x7327d604, 0x4f9dbe3f, 0x094454ab),
                 0, 0xf7537e82, 6, 0, 0xbd3af235, 10, 0, 0x2ad7d2bb, 15, 0, 0xeb86d391, 21)
         == Regs(0x310ade8f, 0xc08226b3, 0xe484b9d8, 0x624d8cb2)
  {
  }

  lemma AbcRound4()
    ensures Round4(Regs(0x7f2e507b, 0x7beb9700, 0x8fae6399, 0x99d9679d), ABC)
         == Regs(0x310ade8f, 0xc08226b3, 0xe484b9d8, 0x624d8cb2)
  {
    hide Quad;
    Abc4a();
    Abc4b();
  }

  lemma AbcLength()
    ensures LittleEndian(24, 8) == [24, 0, 0, 0, 0, 0, 0, 0]
  {
    hide LittleEndian;
    LittleEndianFour(24);
    LittleEndianFour(0);
    LittleEndianHalves(24, 0);
  }

  /** The padded message: its three bytes, a one bit, zeros, and 24 bits as its length. */
  lemma AbcPadded(m: seq<bv8>)
    requires m == [0x61, 0x62, 0x63]
    ensures var b := m + Padding(3);
      && |b| == 64 && b[0] == 0x61 && b[1] == 0x62 && b[2] == 0x63 && b[3] == 0x80 && b[56] == 24
      && (forall i | 4 <= i < 64 && i != 56 :: b[i] == 0)
  {
    AbcLength();
    hide LittleEndian;
    var zeros := Zeros(52);
    assert ZeroCount(3) == 52 && |zeros| == 52 && forall i | 0 <= i < 52 :: zeros[i] == 0;
    assert Padding(3) == [0x80] + zeros + [24, 0, 0, 0, 0, 0, 0, 0];
    hide Padding, Zeros, ZeroCount;
  }

  lemma AbcWords(b: seq<bv8>)
    requires |b| == 64 && b[0] == 0x61 && b[1] == 0x62 && b[2] == 0x63 && b[3] == 0x80 && b[56] == 24
    requires forall i | 4 <= i < 64 && i != 56 :: b[i] == 0
    ensures Words(b) == ABC
  {
    assert LoadWord(0x61, 0x62, 0x63, 0x80) == 0x80636261 && LoadWord(24, 0, 0, 0) == 24 && LoadWord(0, 0, 0, 0) == 0;
    hide LoadWord;
    forall k | 0 <= k < 16 ensures Words(b)[k] == ABC[k] {
    }
  }

  lemma AbcBlock(b: seq<bv8>)
    requires |b| == 64 && b[0] == 0x61 && b[1] == 0x62 && b[2] == 0x63 && b[3] == 0x80 && b[56] == 24
    requires forall i | 4 <= i < 64 && i != 56 :: b[i] == 0
    ensures Transform(Start(), b) == Regs(0x98500190, 0xb04fd23c, 0x7d3f96d6, 0x727fe128)
  {
    hide Round1, Round2, Round3, Round4, Words, LoadWord, Start;
    AbcWords(b);
    AbcRound1();
    AbcRound2();
    AbcRound3();
    AbcRound4();
    StartIs();
  }

  lemma StartIs()
    ensures Start() == Regs(0x67452301, 0xefcdab89, 0x98badcfe, 0x10325476)
  {
  }

  lemma AbcOutput()
    ensures Output(Regs(0x98500190, 0xb04fd23c, 0x7d3f96d6, 0x727fe128))
         == [0x90, 0x01, 0x50, 0x98, 0x3c, 0xd2, 0x4f, 0xb0,
             0xd6, 0x96, 0x3f, 0x7d, 0x28, 0xe1, 0x7f, 0x72]
  {
  }

  lemma DigestIs(m: seq<bv8>, b: seq<bv8>)
    requires b == m + Padding(|m|) && |b| == 64
    ensures Digest(m) == Output(Transform(Start(), b))
  {
    hide Transform, Start, Output, Padding;
    assert b[..64] == b && b[64..] == [];
    NoBlock(Transform(Start(), b), []);
  }

  /** The digest of "abc" is the one of RFC 1321's test suite (section A.5). */
  lemma DigestOfAbc()
    ensures Digest([0x61, 0x62, 0x63])
         == [0x90, 0x01, 0x50, 0x98, 0x3c, 0xd2, 0x4f, 0xb0,
             0xd6, 0x96, 0x3f, 0x7d, 0x28, 0xe1, 0x7f, 0x72]
  {
    var m: seq<bv8> := [0x61, 0x62, 0x63];
    var b := m + Padding(|m|);
    AbcPadded(m);
    hide *;
    AbcBlock(b);
    AbcOutput();
    DigestIs(m, b);
  }
}
