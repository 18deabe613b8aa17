/**
 The streaming MD5 of the SmartCam updater (md5.c). The unrolled rounds are the steps of section 3.4 of
 RFC 1321; the state is the fold of the rounds over all complete blocks, the buffer holds the rest, and two
 counters hold the length. So however a message is cut into updates, the result is the MD5 of the whole
 message, padded as in sections 3.1 and 3.2.
 */
module Md5 {

  /** The four chaining registers. */
  datatype Regs = Regs(a: bv32, b: bv32, c: bv32, d: bv32)

  // ----- the transformation of one block, as the C code writes it -----

  function F(x: bv32, y: bv32, z: bv32): bv32 { z ^ (x & (y ^ z)) }

  function G(x: bv32, y: bv32, z: bv32): bv32 { y ^ (z & (x ^ y)) }

  function H(x: bv32, y: bv32, z: bv32): bv32 { (x ^ y) ^ z }

  function H2(x: bv32, y: bv32, z: bv32): bv32 { x ^ (y ^ z) }

  function I(x: bv32, y: bv32, z: bv32): bv32 { y ^ (x | !z) }

  function Rotate(v: bv32, s: bv32): bv32
    requires 0 < s < 32
  {
    (v << s) | (v >> (32 - s))
  }

  function Add(x: bv32, y: bv32): bv32 { x + y }

  /** One step: `f` is the round function's value, `x` the message word, `t` the constant. */
  function Step(f: bv32, a: bv32, b: bv32, x: bv32, t: bv32, s: bv32): bv32
    requires 0 < s < 32
  {
    Add(Rotate(Add(a, Add(Add(f, x), t)), s), b)
  }

  /** The round function of a round; in the third, odd steps associate the other way. */
  function Aux(round: nat, odd: bool, x: bv32, y: bv32, z: bv32): bv32 {
    match round
    case 0 => F(x, y, z)
    case 1 => G(x, y, z)
    case 2 => if odd then H2(x, y, z) else H(x, y, z)
    case _ => I(x, y, z)
  }

  /** Four steps of a round, after which every register has been updated once. */
  function Quad(round: nat, r: Regs, x0: bv32, t0: bv32, s0: bv32, x1: bv32, t1: bv32, s1: bv32,
                x2: bv32, t2: bv32, s2: bv32, x3: bv32, t3: bv32, s3: bv32): Regs
    requires 0 < s0 < 32 && 0 < s1 < 32 && 0 < s2 < 32 && 0 < s3 < 32
  {
    var Regs(a, b, c, d) := r;
    var a := Step(Aux(round, false, b, c, d), a, b, x0, t0, s0);
    var d := Step(Aux(round, true, a, b, c), d, a, x1, t1, s1);
    var c := Step(Aux(round, false, d, a, b), c, d, x2, t2, s2);
    var b := Step(Aux(round, true, c, d, a), b, c, x3, t3, s3);
    Regs(a, b, c, d)
  }

  function Round1(r: Regs, x: seq<bv32>): Regs
    requires |x| == 16
  {
    var r := Quad(0, r, x[0], 0xd76aa478, 7, x[1], 0xe8c7b756, 12, x[2], 0x242070db, 17, x[3], 0xc1bdceee, 22);
    var r := Quad(0, r, x[4], 0xf57c0faf, 7, x[5], 0x4787c62a, 12, x[6], 0xa8304613, 17, x[7], 0xfd469501, 22);
    var r := Quad(0, r, x[8], 0x698098d8, 7, x[9], 0x8b44f7af, 12, x[10], 0xffff5bb1, 17, x[11], 0x895cd7be, 22);
    Quad(0, r, x[12], 0x6b901122, 7, x[13], 0xfd987193, 12, x[14], 0xa679438e, 17, x[15], 0x49b40821, 22)
  }

  function Round2(r: Regs, x: seq<bv32>): Regs
    requires |x| == 16
  {
    var r := Quad(1, r, x[1], 0xf61e2562, 5, x[6], 0xc040b340, 9, x[11], 0x265e5a51, 14, x[0], 0xe9b6c7aa, 20);
    var r := Quad(1, r, x[5], 0xd62f105d, 5, x[10], 0x02441453, 9, x[15], 0xd8a1e681, 14, x[4], 0xe7d3fbc8, 20);
    var r := Quad(1, r, x[9], 0x21e1cde6, 5, x[14], 0xc33707d6, 9, x[3], 0xf4d50d87, 14, x[8], 0x455a14ed, 20);
    Quad(1, r, x[13], 0xa9e3e905, 5, x[2], 0xfcefa3f8, 9, x[7], 0x676f02d9, 14, x[12], 0x8d2a4c8a, 20)
  }

  function Round3(r: Regs, x: seq<bv32>): Regs
    requires |x| == 16
  {
    var r := Quad(2, r, x[5], 0xfffa3942, 4, x[8], 0x8771f681, 11, x[11], 0x6d9d6122, 16, x[14], 0xfde5380c, 23);
    var r := Quad(2, r, x[1], 0xa4beea44, 4, x[4], 0x4bdecfa9, 11, x[7], 0xf6bb4b60, 16, x[10], 0xbebfbc70, 23);
    var r := Quad(2, r, x[13], 0x289b7ec6, 4, x[0], 0xeaa127fa, 11, x[3], 0xd4ef3085, 16, x[6], 0x04881d05, 23);
    Quad(2, r, x[9], 0xd9d4d039, 4, x[12], 0xe6db99e5, 11, x[15], 0x1fa27cf8, 16, x[2], 0xc4ac5665, 23)
  }

  function Round4(r: Regs, x: seq<bv32>): Regs
    requires |x| == 16
  {
    var r := Quad(3, r, x[0], 0xf4292244, 6, x[7], 0x432aff97, 10, x[14], 0xab9423a7, 15, x[5], 0xfc93a039, 21);
    var r := Quad(3, r, x[12], 0x655b59c3, 6, x[3], 0x8f0ccc92, 10, x[10], 0xffeff47d, 15, x[1], 0x85845dd1, 21);
    var r := Quad(3, r, x[8], 0x6fa87e4f, 6, x[15], 0xfe2ce6e0, 10, x[6], 0xa3014314, 15, x[13], 0x4e0811a1, 21);
    Quad(3, r, x[4], 0xf7537e82, 6, x[11], 0xbd3af235, 10, x[2], 0x2ad7d2bb, 15, x[9], 0xeb86d391, 21)
  }

  /** The little-endian words of a block. */
  function Words(block: seq<bv8>): (x: seq<bv32>)
    requires |block| == 64
    ensures |x| == 16
  {
    seq(16, k requires 0 <= k < 16 => LoadWord(block[4 * k], block[4 * k + 1], block[4 * k + 2], block[4 * k + 3]))
  }

  function LoadWord(b0: bv8, b1: bv8, b2: bv8, b3: bv8): bv32 {
    (b0 as bv32) | ((b1 as bv32) << 8) | ((b2 as bv32) << 16) | ((b3 as bv32) << 24)
  }

  /** The chaining value after one block. */
  function Transform(r: Regs, block: seq<bv8>): Regs
    requires |block| == 64
  {
    var x := Words(block);
    var q := Round4(Round3(Round2(Round1(r, x), x), x), x);
    Regs(Add(q.a, r.a), Add(q.b, r.b), Add(q.c, r.c), Add(q.d, r.d))
  }

  // ----- RFC 1321, section 3.4 -----

  function RfcF(x: bv32, y: bv32, z: bv32): bv32 { (x & y) | (!x & z) }

  function RfcG(x: bv32, y: bv32, z: bv32): bv32 { (x & z) | (y & !z) }

  function RfcH(x: bv32, y: bv32, z: bv32): bv32 { x ^ y ^ z }

  function RfcI(x: bv32, y: bv32, z: bv32): bv32 { y ^ (x | !z) }

  /** The auxiliary function of step `i`. */
  function RfcAux(i: nat, x: bv32, y: bv32, z: bv32): bv32 {
    if i < 16 then RfcF(x, y, z)
    else if i < 32 then RfcG(x, y, z)
    else if i < 48 then RfcH(x, y, z)
    else RfcI(x, y, z)
  }

  /** The index of the message word used in step `i`. */
  function RfcIndex(i: nat): (k: nat)
    ensures k < 16
  {
    if i < 16 then i % 16
    else if i < 32 then (5 * i + 1) % 16
    else if i < 48 then (3 * i + 5) % 16
    else (7 * i) % 16
  }

  /** The rotation of step `i`. */
  function RfcShift(i: nat): (s: bv32)
    ensures 0 < s < 32
  {
    if i < 16 then Pick(i, 7, 12, 17, 22)
    else if i < 32 then Pick(i, 5, 9, 14, 20)
    else if i < 48 then Pick(i, 4, 11, 16, 23)
    else Pick(i, 6, 10, 15, 21)
  }

  function Pick(i: nat, s0: bv32, s1: bv32, s2: bv32, s3: bv32): bv32 {
    if i % 4 == 0 then s0 else if i % 4 == 1 then s1 else if i % 4 == 2 then s2 else s3
  }

  /** The constant of step `i`: the integer part of 2^32 * |sin(i + 1)|. */
  function RfcConstant(i: nat): bv32 {
    match i
    case 0 => 0xd76aa478 case 1 => 0xe8c7b756 case 2 => 0x242070db case 3 => 0xc1bdceee
    case 4 => 0xf57c0faf case 5 => 0x4787c62a case 6 => 0xa8304613 case 7 => 0xfd469501
    case 8 => 0x698098d8 case 9 => 0x8b44f7af case 10 => 0xffff5bb1 case 11 => 0x895cd7be
    case 12 => 0x6b901122 case 13 => 0xfd987193 case 14 => 0xa679438e case 15 => 0x49b40821
    case 16 => 0xf61e2562 case 17 => 0xc040b340 case 18 => 0x265e5a51 case 19 => 0xe9b6c7aa
    case 20 => 0xd62f105d case 21 => 0x02441453 case 22 => 0xd8a1e681 case 23 => 0xe7d3fbc8
    case 24 => 0x21e1cde6 case 25 => 0xc33707d6 case 26 => 0xf4d50d87 case 27 => 0x455a14ed
    case 28 => 0xa9e3e905 case 29 => 0xfcefa3f8 case 30 => 0x676f02d9 case 31 => 0x8d2a4c8a
    case 32 => 0xfffa3942 case 33 => 0x8771f681 case 34 => 0x6d9d6122 case 35 => 0xfde5380c
    case 36 => 0xa4beea44 case 37 => 0x4bdecfa9 case 38 => 0xf6bb4b60 case 39 => 0xbebfbc70
    case 40 => 0x289b7ec6 case 41 => 0xeaa127fa case 42 => 0xd4ef3085 case 43 => 0x04881d05
    case 44 => 0xd9d4d039 case 45 => 0xe6db99e5 case 46 => 0x1fa27cf8 case 47 => 0xc4ac5665
    case 48 => 0xf4292244 case 49 => 0x432aff97 case 50 => 0xab9423a7 case 51 => 0xfc93a039
    case 52 => 0x655b59c3 case 53 => 0x8f0ccc92 case 54 => 0xffeff47d case 55 => 0x85845dd1
    case 56 => 0x6fa87e4f case 57 => 0xfe2ce6e0 case 58 => 0xa3014314 case 59 => 0x4e0811a1
    case 60 => 0xf7537e82 case 61 => 0xbd3af235 case 62 => 0x2ad7d2bb case 63 => 0xeb86d391
    case _ => 0
  }

  /** Section 2: a word from its bytes, the low-order one first. */
  function RfcWord(b0: bv8, b1: bv8, b2: bv8, b3: bv8): bv32 {
    (b0 as bv32) + 0x100 * (b1 as bv32) + 0x1_0000 * (b2 as bv32) + 0x100_0000 * (b3 as bv32)
  }

  function RfcWords(block: seq<bv8>): (x: seq<bv32>)
    requires |block| == 64
    ensures |x| == 16
  {
    seq(16, k requires 0 <= k < 16 => RfcWord(block[4 * k], block[4 * k + 1], block[4 * k + 2], block[4 * k + 3]))
  }

  lemma WordAgrees(b0: bv8, b1: bv8, b2: bv8, b3: bv8)
    ensures LoadWord(b0, b1, b2, b3) == RfcWord(b0, b1, b2, b3)
  {
  }

  lemma WordsAgree(block: seq<bv8>)
    requires |block| == 64
    ensures Words(block) == RfcWords(block)
  {
    hide LoadWord, RfcWord;
    forall k | 0 <= k < 16 ensures Words(block)[k] == RfcWords(block)[k] {
      WordAgrees(block[4 * k], block[4 * k + 1], block[4 * k + 2], block[4 * k + 3]);
    }
  }

  /** Step `i`, after which the registers change places. */
  function RfcStep(r: Regs, x: seq<bv32>, i: nat): Regs
    requires |x| == 16
  {
    Regs(r.d, Add(Rotate(Add(r.a, Add(Add(RfcAux(i, r.b, r.c, r.d), x[RfcIndex(i)]), RfcConstant(i))),
        RfcShift(i)), r.b), r.b, r.c)
  }

  /** The `n` steps from step `i`. */
  function RfcSteps(r: Regs, x: seq<bv32>, i: nat, n: nat): Regs
    requires |x| == 16
    decreases n
  {
    if n == 0 then r else RfcSteps(RfcStep(r, x, i), x, i + 1, n - 1)
  }

  function RfcTransform(r: Regs, block: seq<bv8>): Regs
    requires |block| == 64
  {
    var q := RfcSteps(r, RfcWords(block), 0, 64);
    Regs(Add(q.a, r.a), Add(q.b, r.b), Add(q.c, r.c), Add(q.d, r.d))
  }

  /** The round functions, written with one operation less, are the RFC's. */
  lemma AuxF(x: bv32, y: bv32, z: bv32)
    ensures F(x, y, z) == RfcF(x, y, z)
  {
    assert z ^ (x & (y ^ z)) == (x & y) | (!x & z);
  }

  lemma AuxG(x: bv32, y: bv32, z: bv32)
    ensures G(x, y, z) == F(z, x, y) && RfcG(x, y, z) == RfcF(z, x, y)
  {
  }

  lemma AuxH(x: bv32, y: bv32, z: bv32)
    ensures H(x, y, z) == RfcH(x, y, z) && H2(x, y, z) == RfcH(x, y, z)
  {
  }

  lemma AuxI(x: bv32, y: bv32, z: bv32)
    ensures I(x, y, z) == RfcI(x, y, z)
  {
  }

  lemma AuxAgree(i: nat, x: bv32, y: bv32, z: bv32)
    ensures Aux(i / 16, i % 2 == 1, x, y, z) == RfcAux(i, x, y, z)
  {
    hide F, G, H, H2, I, RfcF, RfcG, RfcH, RfcI;
    AuxF(x, y, z);
    AuxF(z, x, y);
    AuxG(x, y, z);
    AuxH(x, y, z);
    AuxI(x, y, z);
  }

  /** A step of the RFC in the code's terms. */
  lemma StepAgrees(r: Regs, x: seq<bv32>, i: nat, f: bv32, k: nat, t: bv32, s: bv32)
    requires |x| == 16
    requires f == Aux(i / 16, i % 2 == 1, r.b, r.c, r.d) && k == RfcIndex(i)
    requires t == RfcConstant(i) && s == RfcShift(i)
    ensures RfcStep(r, x, i) == Regs(r.d, Step(f, r.a, r.b, x[k], t, s), r.b, r.c)
  {
    hide Add, Rotate, Aux, RfcAux, RfcIndex, RfcConstant, RfcShift;
    AuxAgree(i, r.b, r.c, r.d);
  }

  lemma {:induction false} StepsConcat(r: Regs, x: seq<bv32>, i: nat, n: nat, m: nat)
    requires |x| == 16
    ensures RfcSteps(r, x, i, n + m) == RfcSteps(RfcSteps(r, x, i, n), x, i + n, m)
    decreases n
  {
    hide RfcStep;
    if n > 0 {
      StepsConcat(RfcStep(r, x, i), x, i + 1, n - 1, m);
    }
  }

  lemma QuadAgrees(r: Regs, x: seq<bv32>, i: nat,
                   k0: nat, k1: nat, k2: nat, k3: nat, t0: bv32, t1: bv32, t2: bv32, t3: bv32,
                   s0: bv32, s1: bv32, s2: bv32, s3: bv32)
    requires |x| == 16 && i % 4 == 0
    requires k0 == RfcIndex(i) && k1 == RfcIndex(i + 1) && k2 == RfcIndex(i + 2)
    requires k3 == RfcIndex(i + 3)
    requires t0 == RfcConstant(i) && t1 == RfcConstant(i + 1) && t2 == RfcConstant(i + 2)
    requires t3 == RfcConstant(i + 3)
    requires s0 == RfcShift(i) && s1 == RfcShift(i + 1) && s2 == RfcShift(i + 2)
    requires s3 == RfcShift(i + 3)
    ensures RfcSteps(r, x, i, 4) == Quad(i / 16, r, x[k0], t0, s0, x[k1], t1, s1, x[k2], t2, s2, x[k3], t3, s3)
  {
    hide Step, Aux, RfcStep, RfcIndex, RfcConstant, RfcShift;
    SameRound(i);
    var r1 := RfcStep(r, x, i);
    var r2 := RfcStep(r1, x, i + 1);
    var r3 := RfcStep(r2, x, i + 2);
    StepAgrees(r, x, i, Aux(i / 16, false, r.b, r.c, r.d), k0, t0, s0);
    StepAgrees(r1, x, i + 1, Aux(i / 16, true, r1.b, r1.c, r1.d), k1, t1, s1);
    StepAgrees(r2, x, i + 2, Aux(i / 16, false, r2.b, r2.c, r2.d), k2, t2, s2);
    StepAgrees(r3, x, i + 3, Aux(i / 16, true, r3.b, r3.c, r3.d), k3, t3, s3);
    assert RfcSteps(r2, x, i + 2, 2) == RfcStep(r3, x, i + 3);
  }

  lemma SameRound(i: nat)
    requires i % 4 == 0
    ensures (i + 1) / 16 == (i + 2) / 16 == (i + 3) / 16 == i / 16
    ensures i % 2 == 0 && (i + 1) % 2 == 1 && (i + 2) % 2 == 0 && (i + 3) % 2 == 1
  {
    var q := i / 4;
    assert i == 4 * q;
    var a, b := q / 4, q % 4;
    assert i == 16 * a + 4 * b && b <= 3;
    Divided(i, 16, a);
    Divided(i + 1, 16, a);
    Divided(i + 2, 16, a);
    Divided(i + 3, 16, a);
    Divided(i, 2, 2 * q);
    Divided(i + 1, 2, 2 * q);
    Divided(i + 2, 2, 2 * q + 1);
    Divided(i + 3, 2, 2 * q + 1);
  }

  lemma Divided(n: nat, d: nat, q: nat)
    requires d * q <= n < d * q + d
    ensures n / d == q && n % d == n - d * q
  {
    var m := n / d;
    assert n == d * m + n % d;
    Spread(d, m, q);
    Spread(d, q, m);
  }

  lemma Spread(d: nat, a: nat, b: nat)
    ensures a < b ==> d * a + d <= d * b
  {
    if a < b {
      var k := b - a - 1;
      assert d * b == d * (a + 1 + k) == d * a + d + d * k;
      assert d * k >= 0;
    }
  }

  lemma SixteenSteps(r: Regs, x: seq<bv32>, i: nat)
    requires |x| == 16
    ensures RfcSteps(r, x, i, 16)
      == RfcSteps(RfcSteps(RfcSteps(RfcSteps(r, x, i, 4), x, i + 4, 4), x, i + 8, 4), x, i + 12, 4)
  {
    hide RfcSteps;
    StepsConcat(r, x, i, 4, 12);
    StepsConcat(RfcSteps(r, x, i, 4), x, i + 4, 4, 8);
    StepsConcat(RfcSteps(RfcSteps(r, x, i, 4), x, i + 4, 4), x, i + 8, 4, 4);
  }

  lemma Round1Agrees(r: Regs, x: seq<bv32>)
    requires |x| == 16
    ensures Round1(r, x) == RfcSteps(r, x, 0, 16)
  {
    hide Quad, RfcSteps;
    SixteenSteps(r, x, 0);
    QuadAgrees(r, x, 0, 0, 1, 2, 3, 0xd76aa478, 0xe8c7b756, 0x242070db, 0xc1bdceee, 7, 12, 17, 22);
    var r1 := RfcSteps(r, x, 0, 4);
    QuadAgrees(r1, x, 4, 4, 5, 6, 7, 0xf57c0faf, 0x4787c62a, 0xa8304613, 0xfd469501, 7, 12, 17, 22);
    var r2 := RfcSteps(r1, x, 4, 4);
    QuadAgrees(r2, x, 8, 8, 9, 10, 11, 0x698098d8, 0x8b44f7af, 0xffff5bb1, 0x895cd7be, 7, 12, 17, 22);
    var r3 := RfcSteps(r2, x, 8, 4);
    QuadAgrees(r3, x, 12, 12, 13, 14, 15, 0x6b901122, 0xfd987193, 0xa679438e, 0x49b40821, 7, 12, 17, 22);
  }

  lemma Round2First(r: Regs, x: seq<bv32>)
    requires |x| == 16
    ensures var q :=
        Quad(1, r, x[1], 0xf61e2562, 5, x[6], 0xc040b340, 9, x[11], 0x265e5a51, 14, x[0], 0xe9b6c7aa, 20);
      RfcSteps(RfcSteps(r, x, 16, 4), x, 20, 4)
      == Quad(1, q, x[5], 0xd62f105d, 5, x[10], 0x02441453, 9, x[15], 0xd8a1e681, 14, x[4], 0xe7d3fbc8, 20)
  {
    hide Quad, RfcSteps;
    QuadAgrees(r, x, 16, 1, 6, 11, 0, 0xf61e2562, 0xc040b340, 0x265e5a51, 0xe9b6c7aa, 5, 9, 14, 20);
    var q := RfcSteps(r, x, 16, 4);
    QuadAgrees(q, x, 20, 5, 10, 15, 4, 0xd62f105d, 0x02441453, 0xd8a1e681, 0xe7d3fbc8, 5, 9, 14, 20);
  }

  lemma Round2Last(r: Regs, x: seq<bv32>)
    requires |x| == 16
    ensures var q :=
        Quad(1, r, x[9], 0x21e1cde6, 5, x[14], 0xc33707d6, 9, x[3], 0xf4d50d87, 14, x[8], 0x455a14ed, 20);
      RfcSteps(RfcSteps(r, x, 24, 4), x, 28, 4)
      == Quad(1, q, x[13], 0xa9e3e905, 5, x[2], 0xfcefa3f8, 9, x[7], 0x676f02d9, 14, x[12], 0x8d2a4c8a, 20)
  {
    hide Quad, RfcSteps;
    QuadAgrees(r, x, 24, 9, 14, 3, 8, 0x21e1cde6, 0xc33707d6, 0xf4d50d87, 0x455a14ed, 5, 9, 14, 20);
    var q := RfcSteps(r, x, 24, 4);
    QuadAgrees(q, x, 28, 13, 2, 7, 12, 0xa9e3e905, 0xfcefa3f8, 0x676f02d9, 0x8d2a4c8a, 5, 9, 14, 20);
  }

  lemma Round2Agrees(r: Regs, x: seq<bv32>)
    requires |x| == 16
    ensures Round2(r, x) == RfcSteps(r, x, 16, 16)
  {
    hide Quad, RfcSteps;
    SixteenSteps(r, x, 16);
    Round2First(r, x);
    Round2Last(RfcSteps(RfcSteps(r, x, 16, 4), x, 20, 4), x);
  }

  lemma Round3First(r: Regs, x: seq<bv32>)
    requires |x| == 16
    ensures var q :=
        Quad(2, r, x[5], 0xfffa3942, 4, x[8], 0x8771f681, 11, x[11], 0x6d9d6122, 16, x[14], 0xfde5380c, 23);
      RfcSteps(RfcSteps(r, x, 32, 4), x, 36, 4)
      == Quad(2, q, x[1], 0xa4beea44, 4, x[4], 0x4bdecfa9, 11, x[7], 0xf6bb4b60, 16, x[10], 0xbebfbc70, 23)
  {
    hide Quad, RfcSteps;
    QuadAgrees(r, x, 32, 5, 8, 11, 14, 0xfffa3942, 0x8771f681, 0x6d9d6122, 0xfde5380c, 4, 11, 16, 23);
    var q := RfcSteps(r, x, 32, 4);
    QuadAgrees(q, x, 36, 1, 4, 7, 10, 0xa4beea44, 0x4bdecfa9, 0xf6bb4b60, 0xbebfbc70, 4, 11, 16, 23);
  }

  lemma Round3Last(r: Regs, x: seq<bv32>)
    requires |x| == 16
    ensures var q :=
        Quad(2, r, x[13], 0x289b7ec6, 4, x[0], 0xeaa127fa, 11, x[3], 0xd4ef3085, 16, x[6], 0x04881d05, 23);
      RfcSteps(RfcSteps(r, x, 40, 4), x, 44, 4)
      == Quad(2, q, x[9], 0xd9d4d039, 4, x[12], 0xe6db99e5, 11, x[15], 0x1fa27cf8, 16, x[2], 0xc4ac5665, 23)
  {
    hide Quad, RfcSteps;
    QuadAgrees(r, x, 40, 13, 0, 3, 6, 0x289b7ec6, 0xeaa127fa, 0xd4ef3085, 0x04881d05, 4, 11, 16, 23);
    var q := RfcSteps(r, x, 40, 4);
    QuadAgrees(q, x, 44, 9, 12, 15, 2, 0xd9d4d039, 0xe6db99e5, 0x1fa27cf8, 0xc4ac5665, 4, 11, 16, 23);
  }

  lemma Round3Agrees(r: Regs, x: seq<bv32>)
    requires |x| == 16
    ensures Round3(r, x) == RfcSteps(r, x, 32, 16)
  {
    hide Quad, RfcSteps;
    SixteenSteps(r, x, 32);
    Round3First(r, x);
    Round3Last(RfcSteps(RfcSteps(r, x, 32, 4), x, 36, 4), x);
  }

  lemma Round4Agrees(r: Regs, x: seq<bv32>)
    requires |x| == 16
    ensures Round4(r, x) == RfcSteps(r, x, 48, 16)
  {
    hide Quad, RfcSteps;
    SixteenSteps(r, x, 48);
    QuadAgrees(r, x, 48, 0, 7, 14, 5, 0xf4292244, 0x432aff97, 0xab9423a7, 0xfc93a039, 6, 10, 15, 21);
    var r1 := RfcSteps(r, x, 48, 4);
    QuadAgrees(r1, x, 52, 12, 3, 10, 1, 0x655b59c3, 0x8f0ccc92, 0xffeff47d, 0x85845dd1, 6, 10, 15, 21);
    var r2 := RfcSteps(r1, x, 52, 4);
    QuadAgrees(r2, x, 56, 8, 15, 6, 13, 0x6fa87e4f, 0xfe2ce6e0, 0xa3014314, 0x4e0811a1, 6, 10, 15, 21);
    var r3 := RfcSteps(r2, x, 56, 4);
    QuadAgrees(r3, x, 60, 4, 11, 2, 9, 0xf7537e82, 0xbd3af235, 0x2ad7d2bb, 0xeb86d391, 6, 10, 15, 21);
  }

  /** The code's transformation of a block is the one RFC 1321 defines. */
  lemma TransformAgrees(r: Regs, block: seq<bv8>)
    requires |block| == 64
    ensures Transform(r, block) == RfcTransform(r, block)
  {
    hide Round1, Round2, Round3, Round4, RfcSteps, Words, RfcWords, Add;
    var x := Words(block);
    WordsAgree(block);
    Round1Agrees(r, x);
    Round2Agrees(RfcSteps(r, x, 0, 16), x);
    Round3Agrees(RfcSteps(r, x, 0, 32), x);
    Round4Agrees(RfcSteps(r, x, 0, 48), x);
    StepsConcat(r, x, 0, 16, 16);
    StepsConcat(r, x, 0, 32, 16);
    StepsConcat(r, x, 0, 48, 16);
  }

  // ----- whole messages -----

  function Start(): Regs {
    Regs(0x67452301, 0xefcdab89, 0x98badcfe, 0x10325476)
  }

  /** The chaining value after all complete blocks of `m`. */
  function Blocks(r: Regs, m: seq<bv8>): Regs
    decreases |m|
  {
    if |m| < 64 then r else Blocks(Transform(r, m[..64]), m[64..])
  }

  /** The bytes of `m` after its last complete block. */
  function Tail(m: seq<bv8>): seq<bv8> {
    m[|m| - Used(m)..]
  }

  lemma {:induction false} BlocksConcat(r: Regs, a: seq<bv8>, b: seq<bv8>)
    requires |a| % 64 == 0
    ensures Blocks(r, a + b) == Blocks(Blocks(r, a), b)
    decreases |a|
  {
    hide Transform;
    if |a| == 0 {
      assert a + b == b;
    } else {
      assert (a + b)[..64] == a[..64] && (a + b)[64..] == a[64..] + b;
      BlocksConcat(Transform(r, a[..64]), a[64..], b);
    }
  }

  function Used(m: seq<bv8>): (u: nat)
    ensures u < 64 && u <= |m|
  {
    |m| % 64
  }

  /** Splitting off whole blocks leaves the tail, which contributes nothing yet. */
  lemma SplitWhole(m: seq<bv8>, whole: seq<bv8>, rest: seq<bv8>)
    requires m == whole + rest && |whole| % 64 == 0 && |rest| < 64
    ensures Used(m) == |rest| && Tail(m) == rest && Blocks(Start(), m) == Blocks(Start(), whole)
  {
    hide Start, Blocks;
    WholePlus(|whole|, |rest|);
    BlocksConcat(Start(), whole, rest);
    NoBlock(Blocks(Start(), whole), rest);
  }

  lemma WholePlus(whole: nat, rest: nat)
    requires whole % 64 == 0 && rest < 64
    ensures (whole + rest) % 64 == rest
  {
  }

  /** The whole blocks of `m`. */
  function Whole(m: seq<bv8>): (w: seq<bv8>)
    ensures |w| % 64 == 0 && m == w + Tail(m) && |Tail(m)| == Used(m)
  {
    m[..|m| - Used(m)]
  }

  lemma NoBlock(r: Regs, m: seq<bv8>)
    requires |m| < 64
    ensures Blocks(r, m) == r
  {
  }

  /** A number as `n` little-endian bytes. */
  function LittleEndian(x: nat, n: nat): (s: seq<bv8>)
    ensures |s| == n
    decreases n
  {
    if n == 0 then [] else [(x % 256) as bv8] + LittleEndian(x / 256, n - 1)
  }

  function Zeros(n: nat): (z: seq<bv8>)
    ensures |z| == n
  {
    seq(n, _ => 0)
  }

  function ZeroCount(length: nat): nat {
    (119 - length % 64) % 64
  }

  /** RFC 1321, sections 3.1 and 3.2: a one bit, zeros up to 56 modulo 64, then the bit count modulo 2^64. */
  function Padding(length: nat): seq<bv8> {
    [0x80] + Zeros(ZeroCount(length)) + LittleEndian(8 * length % 0x1_0000_0000_0000_0000, 8)
  }

  lemma ZerosComplete(length: nat)
    ensures (length + 9 + ZeroCount(length)) % 64 == 0
  {
    var q, r := length / 64, length % 64;
    assert length == 64 * q + r;
    if r <= 55 {
      Divided(119 - r, 64, 1);
      Divided(64 * (q + 1), 64, q + 1);
    } else {
      Divided(119 - r, 64, 0);
      Divided(64 * (q + 2), 64, q + 2);
    }
  }

  lemma PaddingCompletes(length: nat)
    ensures (length + |Padding(length)|) % 64 == 0
  {
    hide LittleEndian;
    assert |Padding(length)| == 9 + ZeroCount(length);
    ZerosComplete(length);
  }

  /** The registers as the code stores them, least significant byte first. */
  function WordBytes(v: bv32): (s: seq<bv8>)
    ensures |s| == 4
  {
    [(v & 0xFF) as bv8, ((v >> 8) & 0xFF) as bv8, ((v >> 16) & 0xFF) as bv8, ((v >> 24) & 0xFF) as bv8]
  }

  function Output(r: Regs): seq<bv8> {
    WordBytes(r.a) + WordBytes(r.b) + WordBytes(r.c) + WordBytes(r.d)
  }

  /** The MD5 of a message. */
  function Digest(m: seq<bv8>): seq<bv8> {
    Output(Blocks(Start(), m + Padding(|m|)))
  }

  /** Bytes that do not complete a block only lengthen the tail. */
  lemma TailGrows(m: seq<bv8>, data: seq<bv8>)
    requires Used(m) + |data| < 64
    ensures Blocks(Start(), m + data) == Blocks(Start(), m)
    ensures Used(m + data) == Used(m) + |data| && Tail(m + data) == Tail(m) + data
  {
    hide Start, Blocks, Used, Tail, Whole;
    SplitWhole(m, Whole(m), Tail(m));
    assert m + data == Whole(m) + (Tail(m) + data);
    SplitWhole(m + data, Whole(m), Tail(m) + data);
  }

  /** Bytes that complete blocks are hashed behind the tail. */
  lemma TailCompleted(m: seq<bv8>, data: seq<bv8>)
    requires (Used(m) + |data|) % 64 == 0
    ensures Blocks(Start(), m + data) == Blocks(Blocks(Start(), m), Tail(m) + data)
    ensures Used(m + data) == 0 && Tail(m + data) == []
  {
    hide Start, Blocks, Used, Tail, Whole;
    SplitWhole(m, Whole(m), Tail(m));
    var t := Tail(m) + data;
    BlocksConcat(Start(), Whole(m), t);
    assert Whole(m) + t == m + data;
    WholeSum(|Whole(m)|, |t|);
    assert m + data == (m + data) + [];
    SplitWhole(m + data, m + data, []);
  }

  lemma EmptyTail(m: seq<bv8>)
    requires Used(m) == 0
    ensures Tail(m) == []
  {
  }

  lemma SomeWhole(m: seq<bv8>)
    requires |m| >= 64
    ensures |Whole(m)| > 0
  {
  }

  lemma WholeSum(x: nat, y: nat)
    requires x % 64 == 0 && y % 64 == 0
    ensures (x + y) % 64 == 0
  {
  }

  // ----- the streaming context -----

  /** The two counters: `lo` holds 29 bits of the byte count, `hi` the 32 bits above them. */
  predicate Counts(lo: nat, hi: nat, length: nat) {
    lo == length % 0x2000_0000 && hi == length / 0x2000_0000 % 0x1_0000_0000
  }

  /** The counter update of `MD5_Update`: a carry out of `lo` shows as a smaller `lo`. */
  lemma CountsAdvance(lo: nat, hi: nat, length: nat, size: nat)
    requires Counts(lo, hi, length)
    ensures var lo' := (lo + size) % 0x2000_0000;
      Counts(lo', (hi + (if lo' < lo then 1 else 0) + size / 0x2000_0000) % 0x1_0000_0000, length + size)
  {
    var d := 0x2000_0000;
    var a, b, r := length / d, size / d, size % d;
    assert length == d * a + lo && size == d * b + r;
    var carry := if lo + r < d then 0 else 1;
    Divided(lo + size, d, b + carry);
    Divided(length + size, d, a + b + carry);
    assert (lo + size) % d < lo <==> carry == 1;
    WrapSum(a, b + carry);
  }

  lemma WrapSum(x: nat, y: nat)
    ensures (x % 0x1_0000_0000 + y) % 0x1_0000_0000 == (x + y) % 0x1_0000_0000
  {
  }

  lemma CountsUsed(lo: nat, hi: nat, length: nat)
    requires Counts(lo, hi, length)
    ensures lo % 64 == length % 64 && lo < 0x2000_0000
  {
  }

  /** The shifted `lo` and `hi` are the two halves of the bit count modulo 2^64. */
  lemma CountsAreBits(lo: nat, hi: nat, length: nat)
    requires Counts(lo, hi, length)
    ensures 8 * lo < 0x1_0000_0000
    ensures 8 * length % 0x1_0000_0000_0000_0000 == 8 * lo + 0x1_0000_0000 * hi
  {
    var q := length / 0x2000_0000;
    assert length == 0x2000_0000 * q + lo;
    var p := q / 0x1_0000_0000;
    assert q == 0x1_0000_0000 * p + hi;
    var rest := 0x1_0000_0000 * hi + 8 * lo;
    assert 8 * length == 0x1_0000_0000_0000_0000 * p + rest;
    assert 0 <= rest < 0x1_0000_0000_0000_0000;
    Divided(8 * length, 0x1_0000_0000_0000_0000, p);
  }

  lemma LittleEndianHalves(low: nat, high: nat)
    requires low < 0x1_0000_0000
    ensures LittleEndian(low + 0x1_0000_0000 * high, 8) == LittleEndian(low, 4) + LittleEndian(high, 4)
  {
    hide *;
    var d1, d2, d3 := low / 0x100, low / 0x1_0000, low / 0x100_0000;
    Shifted(low);
    LittleEndianByte(low, 0x100_0000 * high, 7);
    LittleEndianByte(d1, 0x1_0000 * high, 6);
    LittleEndianByte(d2, 0x100 * high, 5);
    LittleEndianByte(d3, high, 4);
    assert low + 256 * (0x100_0000 * high) == low + 0x1_0000_0000 * high;
    LittleEndianFour(low);
    FourThen((low % 256) as bv8, (d1 % 256) as bv8, (d2 % 256) as bv8, (d3 % 256) as bv8, LittleEndian(high, 4));
  }

  lemma FourThen(a: bv8, b: bv8, c: bv8, d: bv8, rest: seq<bv8>)
    ensures [a] + ([b] + ([c] + ([d] + rest))) == [a, b, c, d] + rest
  {
  }

  lemma Shifted(x: nat)
    ensures x / 0x100 / 0x100 == x / 0x1_0000 && x / 0x1_0000 / 0x100 == x / 0x100_0000
    ensures x < 0x1_0000_0000 ==> x / 0x100_0000 / 0x100 == 0
  {
  }

  lemma LittleEndianByte(low: nat, high: nat, n: nat)
    ensures LittleEndian(low + 256 * high, n + 1) == [(low % 256) as bv8] + LittleEndian(low / 256 + high, n)
  {
    assert (low + 256 * high) % 256 == low % 256 && (low + 256 * high) / 256 == low / 256 + high;
  }

  lemma LittleEndianFour(x: nat)
    ensures LittleEndian(x, 4) == [(x % 256) as bv8, (x / 0x100 % 256) as bv8, (x / 0x1_0000 % 256) as bv8,
      (x / 0x100_0000 % 256) as bv8]
  {
    var d1, d2, d3 := x / 0x100, x / 0x1_0000, x / 0x100_0000;
    var none := LittleEndian(d3 / 256, 0);
    assert none == [];
    hide LittleEndian;
    Shifted(x);
    LittleEndianStep(x, 3);
    LittleEndianStep(d1, 2);
    LittleEndianStep(d2, 1);
    LittleEndianStep(d3, 0);
    FourThen((x % 256) as bv8, (d1 % 256) as bv8, (d2 % 256) as bv8, (d3 % 256) as bv8, none);
  }

  lemma LittleEndianStep(x: nat, n: nat)
    ensures LittleEndian(x, n + 1) == [(x % 256) as bv8] + LittleEndian(x / 256, n)
  {
  }

  lemma DigestFromTail(m: seq<bv8>)
    ensures Digest(m) == Output(Blocks(Blocks(Start(), m), Tail(m) + Padding(|m|)))
  {
    var p := Padding(|m|);
    assert (Used(m) + |p|) % 64 == 0 by {
      PaddingCompletes(|m|);
      UsedCompletes(m, |p|);
    }
    hide Start, Blocks, Padding, Output, Used, Tail;
    TailCompleted(m, p);
  }

  lemma UsedCompletes(m: seq<bv8>, n: nat)
    requires (|m| + n) % 64 == 0
    ensures (Used(m) + n) % 64 == 0
  {
  }

  lemma PaddingShape(m: seq<bv8>, lo: nat, hi: nat)
    requires lo < 0x1_0000_0000 && 8 * |m| % 0x1_0000_0000_0000_0000 == lo + 0x1_0000_0000 * hi
    ensures Padding(|m|) == [0x80] + Zeros(ZeroCount(|m|)) + LittleEndian(lo, 4) + LittleEndian(hi, 4)
    ensures ZeroCount(|m|) == (if Used(m) < 56 then 55 - Used(m) else 119 - Used(m))
  {
    hide LittleEndian;
    LittleEndianHalves(lo, hi);
  }

  /** The one or two last blocks hold the waiting bytes and their padding. */
  lemma PaddingLaidOut(m: seq<bv8>, filled: seq<bv8>, last: seq<bv8>, lo: nat, hi: nat)
    requires lo < 0x1_0000_0000 && 8 * |m| % 0x1_0000_0000_0000_0000 == lo + 0x1_0000_0000 * hi
    requires |last| == 64 && last[56..] == LittleEndian(lo, 4) + LittleEndian(hi, 4)
    requires Used(m) < 56 ==> filled == [] && last[..56] == Tail(m) + [0x80] + Zeros(55 - Used(m))
    requires Used(m) >= 56 ==> filled == Tail(m) + [0x80] + Zeros(63 - Used(m)) && last[..56] == Zeros(56)
    ensures filled + last == Tail(m) + Padding(|m|) && |filled| % 64 == 0
  {
    hide LittleEndian, Padding, Used, ZeroCount, Zeros;
    PaddingShape(m, lo, hi);
    assert last == last[..56] + last[56..];
    if Used(m) >= 56 {
      ZerosConcat(63 - Used(m), 56);
    }
  }

  lemma ZerosConcat(a: nat, b: nat)
    ensures Zeros(a) + Zeros(b) == Zeros(a + b)
  {
  }

  lemma StartOfMessage()
    ensures Counts(0, 0, 0) && Used([]) == 0 && Tail([]) == [] && Blocks(Start(), []) == Start()
  {
    hide Start;
  }

  class Context {
    var lo: nat
    var hi: nat
    var regs: Regs
    const buffer: array<bv8>
    /** Everything hashed since `Init`. */
    ghost var message: seq<bv8>

    ghost predicate Valid()
      reads this, buffer
    {
      Absorbed() && Counts(lo, hi, |message|)
    }

    constructor ()
      ensures Valid() && fresh(buffer) && message == []
    {
      hide Start, Blocks, Counts, Used, Tail;
      lo, hi, regs := 0, 0, Start();
      buffer := new bv8[64];
      message := [];
      StartOfMessage();
    }

    /** `body`: the chaining value over one or more whole blocks. */
    method Body(data: seq<bv8>)
      requires |data| > 0 && |data| % 64 == 0
      modifies this`regs
      ensures regs == Blocks(old(regs), data)
    {
      hide Transform;
      var at := 0;
      while at < |data|
        invariant at <= |data| && at % 64 == 0
        invariant Blocks(regs, data[at..]) == Blocks(old(regs), data)
      {
        assert data[at..][..64] == data[at..at + 64] && data[at..][64..] == data[at + 64..];
        regs := Transform(regs, data[at..at + 64]);
        at := at + 64;
      }
    }

    /** `MD5_Update`. */
    method Update(data: seq<bv8>)
      requires Valid()
      modifies this, buffer
      ensures Valid() && message == old(message) + data
    {
      hide Start, Blocks, Transform;
      var savedLo, size := lo, |data|;
      CountsUsed(lo, hi, |message|);
      CountsAdvance(lo, hi, |message|, size);
      WrapSum(hi + (if (savedLo + size) % 0x2000_0000 < savedLo then 1 else 0), size / 0x2000_0000);
      lo := (savedLo + size) % 0x2000_0000;
      if lo < savedLo {
        hi := (hi + 1) % 0x1_0000_0000;
      }
      hi := (hi + size / 0x2000_0000) % 0x1_0000_0000;
      Absorb(savedLo % 64, data);
    }

    /** What holds between the steps of an update, counters aside. */
    ghost predicate Absorbed()
      reads this, buffer
    {
      buffer.Length == 64 && regs == Blocks(Start(), message) && buffer[..Used(message)] == Tail(message)
    }

    /** The part of `MD5_Update` that moves bytes: `used` of the buffer's bytes are waiting. */
    method Absorb(used: nat, data: seq<bv8>)
      requires Absorbed() && used == Used(message)
      modifies this`regs, this`message, buffer
      ensures Absorbed() && message == old(message) + data
    {
      hide Start, Blocks, Used, Tail;
      if used != 0 {
        var available := 64 - used;
        if |data| < available {
          AppendTail(used, data);
          return;
        }
        FillBuffer(used, data[..available]);
        AbsorbBlocks(data[available..]);
        assert data == data[..available] + data[available..];
      } else {
        AbsorbBlocks(data);
      }
    }

    /** Too few bytes to complete a block stay in the buffer. */
    method AppendTail(used: nat, data: seq<bv8>)
      requires Absorbed() && used == Used(message) && used + |data| < 64
      modifies this`message, buffer
      ensures Absorbed() && message == old(message) + data
    {
      hide Start, Blocks, Used, Tail;
      Copy(used, data);
      TailGrows(message, data);
      message := message + data;
      assert buffer[..used + |data|] == buffer[..used] + buffer[used..used + |data|];
    }

    /** Completes the buffered block and hashes it. */
    method FillBuffer(used: nat, data: seq<bv8>)
      requires Absorbed() && used == Used(message) && used + |data| == 64
      modifies this`regs, this`message, buffer
      ensures Absorbed() && message == old(message) + data && Used(message) == 0
    {
      hide Start, Blocks, Used, Tail;
      Copy(used, data);
      assert buffer[..] == buffer[..used] + buffer[used..used + |data|];
      TailCompleted(message, data);
      message := message + data;
      Body(buffer[..]);
    }

    /** Hashes the whole blocks in place and keeps the rest. */
    method AbsorbBlocks(data: seq<bv8>)
      requires Absorbed() && Used(message) == 0
      modifies this`regs, this`message, buffer
      ensures Absorbed() && message == old(message) + data
    {
      hide Start, Blocks, Used, Tail, Whole;
      var rest := data;
      if |rest| >= 64 {
        var whole := Whole(rest);
        TailCompleted(message, whole);
        EmptyTail(message);
        assert Tail(message) + whole == whole;
        message := message + whole;
        SomeWhole(rest);
        Body(whole);
        rest := rest[|whole|..];
        assert rest == Tail(data);
      }
      AppendTail(0, rest);
    }

    /** `memcpy` into the buffer. */
    method Copy(at: nat, data: seq<bv8>)
      requires at + |data| <= buffer.Length
      modifies buffer
      ensures buffer[..at] == old(buffer[..at])
      ensures buffer[at..at + |data|] == data
      ensures buffer[at + |data|..] == old(buffer[at + |data|..])
    {
      forall i | 0 <= i < |data| {
        buffer[at + i] := data[i];
      }
    }
  
    /** `OUT`: stores a 32-bit number, least significant byte first. */
    method Store(at: nat, x: nat)
      requires at + 4 <= buffer.Length
      modifies buffer
      ensures buffer[..at] == old(buffer[..at]) && buffer[at + 4..] == old(buffer[at + 4..])
      ensures buffer[at..at + 4] == LittleEndian(x, 4)
    {
      hide LittleEndian;
      LittleEndianFour(x);
      Copy(at, [(x % 256) as bv8, (x / 0x100 % 256) as bv8, (x / 0x1_0000 % 256) as bv8,
          (x / 0x100_0000 % 256) as bv8]);
    }

    /** Zeros up to the last eight bytes, which hold the bit count. */
    method FinishBlock(used: nat, low: nat, high: nat)
      requires buffer.Length == 64 && used <= 56
      modifies buffer
      ensures buffer[..56] == old(buffer[..used]) + Zeros(56 - used)
      ensures buffer[56..] == LittleEndian(low, 4) + LittleEndian(high, 4)
    {
      hide LittleEndian, Zeros;
      Copy(used, Zeros(56 - used));
      assert buffer[..56] == buffer[..used] + buffer[used..56];
      Store(56, low);
      ghost var first := buffer[..60];
      assert first[..56] == buffer[..56] && first[56..] == buffer[56..60];
      Store(60, high);
      assert buffer[..56] == first[..56] && buffer[56..60] == first[56..];
      assert buffer[56..] == buffer[56..60] + buffer[60..];
    }

    /** `MD5_Final`. */
    method Final() returns (result: seq<bv8>)
      requires Valid()
      modifies this, buffer
      ensures result == Digest(old(message))
    {
      hide Start, Blocks, Tail, Used, Padding, LittleEndian, Output, Counts, Zeros;
      ghost var m, filled := message, [];
      var used := CountUsed();
      buffer[used] := 0x80;
      used := used + 1;
      var available := 64 - used;
      assert buffer[..used] == Tail(m) + [0x80];
      if available < 8 {
        Copy(used, Zeros(available));
        filled := buffer[..];
        assert filled == Tail(m) + [0x80] + Zeros(available);
        Body(buffer[..]);
        used := 0;
        available := 64;
      }
      CountsAreBits(lo, hi, |m|);
      lo := lo * 8 % 0x1_0000_0000;
      FinishBlock(used, lo, hi);
      PaddingLaidOut(m, filled, buffer[..], lo, hi);
      BlocksConcat(Blocks(Start(), m), filled, buffer[..]);
      DigestFromTail(m);
      NoBlock(Blocks(Start(), m), []);
      Body(buffer[..]);
      result := Output(regs);
    }

    method CountUsed() returns (used: nat)
      requires Valid()
      ensures used == Used(message)
    {
      CountsUsed(lo, hi, |message|);
      used := lo % 64;
    }
  }

  // ----- the whole algorithm -----

  /** RFC 1321, section 3: the padded message's blocks transformed in turn. */
  function RfcBlocks(r: Regs, m: seq<bv8>): Regs
    decreases |m|
  {
    if |m| < 64 then r else RfcBlocks(RfcTransform(r, m[..64]), m[64..])
  }

  lemma {:induction false} BlocksAreRfc(r: Regs, m: seq<bv8>)
    ensures Blocks(r, m) == RfcBlocks(r, m)
    decreases |m|
  {
    hide Transform, RfcTransform;
    if |m| >= 64 {
      TransformAgrees(r, m[..64]);
      BlocksAreRfc(Transform(r, m[..64]), m[64..]);
    }
  }

  /** RFC 1321, section 3.3: the four words of the start value, low-order bytes first. */
  function RfcStart(): Regs {
    Regs(RfcWord(0x01, 0x23, 0x45, 0x67), RfcWord(0x89, 0xab, 0xcd, 0xef),
         RfcWord(0xfe, 0xdc, 0xba, 0x98), RfcWord(0x76, 0x54, 0x32, 0x10))
  }

  lemma StartAgrees()
    ensures Start() == RfcStart()
  {
  }

  /** The digest is the one RFC 1321 defines. */
  lemma DigestIsRfc(m: seq<bv8>)
    ensures Digest(m) == Output(RfcBlocks(RfcStart(), m + Padding(|m|)))
  {
    hide Blocks, RfcBlocks, Start, RfcStart, Output, Padding;
    StartAgrees();
    BlocksAreRfc(Start(), m + Padding(|m|));
  }

  function Flatten(chunks: seq<seq<bv8>>): seq<bv8> {
    if chunks == [] then [] else Flatten(chunks[..|chunks| - 1]) + chunks[|chunks| - 1]
  }

  /** Initialise, update once per chunk, finish: only the concatenation matters. */
  method HashChunks(chunks: seq<seq<bv8>>) returns (result: seq<bv8>)
    ensures result == Output(RfcBlocks(RfcStart(), Flatten(chunks) + Padding(|Flatten(chunks)|)))
  {
    hide Digest, Output, RfcBlocks, RfcStart, Padding, Start, Counts, Tail, Used, Blocks;
    var context := new Context();
    var i := 0;
    while i < |chunks|
      invariant i <= |chunks|
      invariant context.Valid() && fresh(context) && fresh(context.buffer)
      invariant context.message == Flatten(chunks[..i])
    {
      assert chunks[..i + 1][..i] == chunks[..i];
      context.Update(chunks[i]);
      i := i + 1;
    }
    assert chunks[..i] == chunks;
    result := context.Final();
    DigestIsRfc(Flatten(chunks));
  }
}
