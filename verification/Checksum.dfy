/**
 The Internet checksum of common/utils/network/ping.c, as RFC 1071 section 1 describes it:
 the complement of the one's-complement sum of the buffer's 16-bit words.
 */
module Checksum {
  import opened Prelude

  /** The sum of the little-endian words of `buf`; an odd last byte counts as itself. */
  function WordSum(buf: seq<byte>): nat {
    if |buf| == 0 then 0
    else if |buf| == 1 then buf[0]
    else buf[0] + 256 * buf[1] + WordSum(buf[2..])
  }

  /** Two end-around-carry folds of a 32-bit sum, truncated to 16 bits. */
  function FoldTwice(sum: nat): nat
    requires sum < 0x1_0000_0000
  {
    var once := sum / 0x1_0000 + sum % 0x1_0000;
    (once + once / 0x1_0000) % 0x1_0000
  }

  /** The checksum of a buffer whose word sum wraps in a 32-bit accumulator. */
  function Of(buf: seq<byte>): nat {
    0xFFFF - FoldTwice(WordSum(buf) % 0x1_0000_0000)
  }

  /** One's-complement addition represents `n` by `rep`: congruent modulo 2^16 - 1, and zero only for zero. */
  predicate Represents(rep: int, n: int) {
    0 <= rep < 0x1_0000 && (rep - n) % 0xFFFF == 0 && (rep == 0 <==> n == 0)
  }

  /** For every 32-bit sum two folds already reach the unique one's-complement representative. */
  lemma TwoFoldsSuffice(sum: nat, rep: int)
    requires sum < 0x1_0000_0000
    ensures Represents(rep, sum) <==> rep == FoldTwice(sum)
  {
    var once := sum / 0x1_0000 + sum % 0x1_0000;
    var twice := FoldTwice(sum);
    assert sum == (sum / 0x1_0000) * 0xFFFF + once;
    assert twice == once || twice == once - 0xFFFF;
    assert (twice - sum) % 0xFFFF == 0;
  }

  lemma {:induction false} SumFits(buf: seq<byte>)
    ensures 2 * WordSum(buf) <= 0xFFFF * (|buf| + 1)
  {
    if |buf| >= 2 {
      SumFits(buf[2..]);
    }
  }

  /** A buffer checks iff its words sum to a non-zero multiple of 2^16 - 1. */
  lemma ChecksIff(buf: seq<byte>)
    requires |buf| <= 0xFFFF
    ensures Of(buf) == 0 <==> WordSum(buf) != 0 && WordSum(buf) % 0xFFFF == 0
  {
    OfFits(buf);
    ChecksumZero(WordSum(buf));
  }

  /** Up to 65535 bytes the 32-bit accumulator cannot wrap. */
  lemma OfFits(buf: seq<byte>)
    requires |buf| <= 0x1_FFFF
    ensures WordSum(buf) + 0xFFFF < 0x1_0000_0000 && Of(buf) == 0xFFFF - FoldTwice(WordSum(buf))
  {
    SumFits(buf);
    SmallRemainder(WordSum(buf));
  }

  lemma SmallRemainder(sum: nat)
    requires sum < 0x1_0000_0000
    ensures sum % 0x1_0000_0000 == sum
  {
  }

  lemma ChecksumZero(sum: nat)
    requires sum < 0x1_0000_0000
    ensures FoldTwice(sum) == 0xFFFF <==> sum != 0 && sum % 0xFFFF == 0
  {
    TwoFoldsSuffice(sum, 0xFFFF);
  }

  lemma {:induction false} SumSplits(a: seq<byte>, b: seq<byte>)
    requires |a| % 2 == 0
    ensures WordSum(a + b) == WordSum(a) + WordSum(b)
  {
    if a == [] {
      assert a + b == b;
    } else {
      assert (a + b)[2..] == a[2..] + b;
      SumSplits(a[2..], b);
    }
  }

  lemma {:induction false} ZerosSumToZero(n: nat)
    ensures WordSum(seq(n, _ => 0)) == 0
  {
    if n >= 2 {
      assert seq(n, _ => 0 as byte)[2..] == seq(n - 2, _ => 0);
      ZerosSumToZero(n - 2);
    }
  }

  /** Zero bytes after the message change nothing, whatever the message's length. */
  lemma {:induction false} TrailingZerosIgnored(buf: seq<byte>, n: nat)
    ensures WordSum(buf + seq(n, _ => 0)) == WordSum(buf)
    ensures Of(buf + seq(n, _ => 0)) == Of(buf)
  {
    var zeros: seq<byte> := seq(n, _ => 0);
    if |buf| == 0 {
      assert buf + zeros == zeros;
      ZerosSumToZero(n);
    } else if |buf| == 1 {
      if n > 0 {
        assert (buf + zeros)[2..] == seq(n - 1, _ => 0);
        ZerosSumToZero(n - 1);
      } else {
        assert buf + zeros == buf;
      }
    } else {
      assert (buf + zeros)[2..] == buf[2..] + zeros;
      TrailingZerosIgnored(buf[2..], n);
    }
  }

  /** `buf` with the 16-bit little-endian value `c` stored at `at`. */
  function Store(buf: seq<byte>, at: nat, c: nat): seq<byte>
    requires at + 1 < |buf| && c < 0x1_0000
  {
    buf[at := c % 256][at + 1 := c / 256]
  }

  lemma {:induction false} StoreAdds(buf: seq<byte>, at: nat, c: nat)
    requires at % 2 == 0 && at + 1 < |buf| && c < 0x1_0000
    requires buf[at] == 0 && buf[at + 1] == 0
    ensures WordSum(Store(buf, at, c)) == WordSum(buf) + c
  {
    if at == 0 {
      assert Store(buf, 0, c)[2..] == buf[2..];
    } else {
      assert Store(buf, at, c)[2..] == Store(buf[2..], at - 2, c);
      StoreAdds(buf[2..], at - 2, c);
    }
  }

  /** Storing the checksum of a message in its zeroed, even-offset field makes the message check. */
  lemma StoredChecksumVerifies(buf: seq<byte>, at: nat)
    requires |buf| <= 0xFFFF
    requires at % 2 == 0 && at + 1 < |buf| && buf[at] == 0 && buf[at + 1] == 0
    ensures Of(Store(buf, at, Of(buf))) == 0
  {
    OfFits(buf);
    OfFits(Store(buf, at, Of(buf)));
    StoreAdds(buf, at, Of(buf));
    ComplementCompletes(WordSum(buf));
  }

  lemma ComplementCompletes(sum: nat)
    requires sum + 0xFFFF < 0x1_0000_0000
    ensures FoldTwice(sum + (0xFFFF - FoldTwice(sum))) == 0xFFFF
  {
    hide FoldTwice;
    TwoFoldsSuffice(sum, FoldTwice(sum));
    ChecksumZero(sum + (0xFFFF - FoldTwice(sum)));
  }

  /** Addition in the 32-bit accumulator. */
  function Accumulate(sum: nat, word: nat): nat {
    (sum + word) % 0x1_0000_0000
  }

  lemma AccumulateAssociates(sum: nat, word: nat, rest: nat)
    ensures Accumulate(Accumulate(sum, word), rest) == Accumulate(sum, word + rest)
  {
  }

  /** The accumulating loop: 16-bit loads while two bytes are left, then the odd byte. */
  method Compute(buf: array<byte>, start: nat, length: nat) returns (check: nat)
    requires start + length <= buf.Length
    ensures check == Of(buf[start..start + length])
  {
    hide FoldTwice;
    var sum: nat, at, len := 0, start, length;
    ghost var total := Accumulate(0, WordSum(buf[start..start + length]));
    while len > 1
      invariant at + len == start + length && start <= at
      invariant sum < 0x1_0000_0000
      invariant Accumulate(sum, WordSum(buf[at..at + len])) == total
    {
      assert buf[at..at + len][2..] == buf[at + 2..at + len];
      var low: int, high: int := buf[at], buf[at + 1];
      AccumulateAssociates(sum, low + 256 * high, WordSum(buf[at + 2..at + len]));
      sum := Accumulate(sum, low + 256 * high);
      at, len := at + 2, len - 2;
    }
    if len != 0 {
      sum := Accumulate(sum, buf[at]);
    }
    check := Finish(sum);
    SmallRemainder(sum);
  }

  /** The folds after the loop. */
  method Finish(total: nat) returns (check: nat)
    requires total < 0x1_0000_0000
    ensures check == 0xFFFF - FoldTwice(total)
  {
    var sum := total;
    sum := sum / 0x1_0000 + sum % 0x1_0000;
    sum := sum + sum / 0x1_0000;
    check := 0xFFFF - sum % 0x1_0000;
  }

  const IP_HSIZE := 20
  const ICMP_HSIZE := 8
  const DEFAULT_LEN := 56
  const RAWBUF_SIZE := 128
  const CHECK_AT := 2

  /** The ICMP message inside a raw packet. */
  function IcmpOf(packet: seq<byte>): seq<byte>
    requires |packet| == RAWBUF_SIZE
  {
    packet[IP_HSIZE..IP_HSIZE + ICMP_HSIZE + DEFAULT_LEN]
  }

  /**
   Fills the ICMP checksum field. The length given is the IP total length, 20 bytes more than
   the ICMP message; the bytes it covers too many are the zeros the packet buffer starts with.
   */
  method FillChecksum(packet: array<byte>)
    requires packet.Length == RAWBUF_SIZE
    requires forall i | IP_HSIZE + ICMP_HSIZE + DEFAULT_LEN <= i < RAWBUF_SIZE :: packet[i] == 0
    modifies packet
    ensures forall i | 0 <= i < RAWBUF_SIZE && i != IP_HSIZE + CHECK_AT && i != IP_HSIZE + CHECK_AT + 1 ::
      packet[i] == old(packet[i])
    ensures Of(IcmpOf(packet[..])) == 0
  {
    var total := IP_HSIZE + ICMP_HSIZE + DEFAULT_LEN;
    packet[IP_HSIZE + CHECK_AT], packet[IP_HSIZE + CHECK_AT + 1] := 0, 0;
    ghost var before := packet[..];
    assert packet[IP_HSIZE..IP_HSIZE + total] == IcmpOf(before) + seq(IP_HSIZE, _ => 0);
    TrailingZerosIgnored(IcmpOf(before), IP_HSIZE);
    StoredChecksumVerifies(IcmpOf(before), CHECK_AT);
    var check := Compute(packet, IP_HSIZE, total);
    packet[IP_HSIZE + CHECK_AT], packet[IP_HSIZE + CHECK_AT + 1] := check % 256, check / 256;
    assert IcmpOf(packet[..]) == Store(IcmpOf(before), CHECK_AT, check);
  }
}
