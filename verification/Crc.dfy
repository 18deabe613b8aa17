/** The CRC-32s of rkbootloader.c and flash_image.c, and the two CRC-16s of crc.c. */
module Crc {
  import opened Folding

  // ----- register arithmetic -----

  function Mix(x: bv32, y: bv32): bv32 {
    x ^ y
  }

  function LowByte(v: bv32): bv32 {
    v & 255
  }

  function DropByte(v: bv32): bv32 {
    v >> 8
  }

  function Halve(h: bv32): bv32 {
    h >> 1
  }

  predicate Even(h: bv32) {
    h & 1 == 0
  }

  lemma MixNothing(x: bv32)
    ensures Mix(x, 0) == x
  {
  }

  lemma MixSwap(x: bv32, y: bv32, z: bv32)
    ensures Mix(Mix(x, y), z) == Mix(Mix(x, z), y) && Mix(x, Mix(y, z)) == Mix(Mix(x, y), z)
  {
  }

  lemma LowByteMix(x: bv32, y: bv32)
    ensures LowByte(Mix(x, LowByte(y))) == LowByte(Mix(x, y))
  {
  }

  lemma DropByteMix(x: bv32, y: bv32)
    ensures DropByte(Mix(x, y)) == Mix(DropByte(x), DropByte(y))
  {
  }

  lemma HalveMix(x: bv32, y: bv32)
    ensures Halve(Mix(x, y)) == Mix(Halve(x), Halve(y))
  {
  }

  lemma EvenMix(x: bv32, y: bv32)
    requires Even(y)
    ensures Even(Mix(x, y)) == Even(x)
  {
  }

  // ----- CRC-32 -----

  /** A table of 256 words, looked up by the low byte of its argument. */
  type Table = bv32 -> bv32

  /** One lookup step: feeds the byte `x` into the register. */
  function Feed(table: Table, crc: bv32, x: bv32): bv32 {
    Mix(table(LowByte(Mix(crc, x))), DropByte(crc))
  }

  function FeedByte(table: Table, crc: bv32, x: bv8): bv32 {
    Feed(table, crc, x as bv32)
  }

  /** The register transition of one byte. */
  function ByteStep(table: Table): (bv32, bv8) -> bv32 {
    (crc: bv32, x: bv8) => FeedByte(table, crc, x)
  }

  /** The exchange between a register and a checksum; it undoes itself. */
  function Invert(x: bv32): bv32 {
    x ^ 0xFFFF_FFFF
  }

  lemma InvertTwice(x: bv32)
    ensures Invert(Invert(x)) == x
  {
  }

  /** The CRC-32 of `buf`, continuing from the checksum `crc`, over any byte transition. */
  function Crc32(step: (bv32, bv8) -> bv32, crc: bv32, buf: seq<bv8>): bv32 {
    Invert(Fold(step, Invert(crc), buf))
  }

  /** A checksum may be continued: checking in two pieces is checking the whole. */
  lemma Crc32Continues(step: (bv32, bv8) -> bv32, crc: bv32, a: seq<bv8>, b: seq<bv8>)
    ensures Crc32(step, crc, a + b) == Crc32(step, Crc32(step, crc, a), b)
  {
    hide Invert;
    FoldConcat(step, Invert(crc), a, b);
    InvertTwice(Fold(step, Invert(crc), a));
  }

  /** Feeding a zero byte into a register with `v` already mixed in feeds the low byte of `v`. */
  lemma FeedPremixed(table: Table, crc: bv32, v: bv32)
    ensures Feed(table, Mix(crc, v), 0) == Mix(Feed(table, crc, LowByte(v)), DropByte(v))
  {
    hide Mix, LowByte, DropByte;
    MixNothing(Mix(crc, v));
    LowByteMix(crc, v);
    DropByteMix(crc, v);
    MixSwap(table(LowByte(Mix(crc, v))), DropByte(crc), DropByte(v));
  }

  /** A little-endian 32-bit load. */
  function Word(b0: bv8, b1: bv8, b2: bv8, b3: bv8): bv32 {
    (b0 as bv32) | ((b1 as bv32) << 8) | ((b2 as bv32) << 16) | ((b3 as bv32) << 24)
  }

  lemma WordBytes(b0: bv8, b1: bv8, b2: bv8, b3: bv8)
    ensures var w := Word(b0, b1, b2, b3);
      && LowByte(w) == b0 as bv32 && LowByte(DropByte(w)) == b1 as bv32
      && LowByte(DropByte(DropByte(w))) == b2 as bv32 && LowByte(DropByte(DropByte(DropByte(w)))) == b3 as bv32
      && DropByte(DropByte(DropByte(DropByte(w)))) == 0
  {
  }

  /** Mixing in a whole word and feeding four zero bytes is feeding the word's bytes in order. */
  lemma WordStep(table: Table, crc: bv32, b0: bv8, b1: bv8, b2: bv8, b3: bv8)
    ensures
      Feed(table, Feed(table, Feed(table, Feed(table, Mix(crc, Word(b0, b1, b2, b3)), 0), 0), 0), 0)
      == FeedByte(table, FeedByte(table, FeedByte(table, FeedByte(table, crc, b0), b1), b2), b3)
  {
    hide Feed, Word, Mix, LowByte, DropByte;
    var w1 := Word(b0, b1, b2, b3);
    var w2 := DropByte(w1);
    var w3 := DropByte(w2);
    var w4 := DropByte(w3);
    WordBytes(b0, b1, b2, b3);
    FeedPremixed(table, crc, w1);
    var c1 := FeedByte(table, crc, b0);
    FeedPremixed(table, c1, w2);
    var c2 := FeedByte(table, c1, b1);
    FeedPremixed(table, c2, w3);
    var c3 := FeedByte(table, c2, b2);
    FeedPremixed(table, c3, w4);
    MixNothing(FeedByte(table, c3, b3));
  }

  lemma FoldFour<S>(step: (S, bv8) -> S, s: S, items: seq<bv8>)
    requires |items| >= 4
    ensures Fold(step, s, items)
         == Fold(step, step(step(step(step(s, items[0]), items[1]), items[2]), items[3]), items[4..])
  {
    assert items[1..][1..] == items[2..] && items[2..][1..] == items[3..] && items[3..][1..] == items[4..];
    assert Fold(step, s, items) == Fold(step, step(step(s, items[0]), items[1]), items[2..]);
  }

  /** The bootloader's loop: one byte at a time. */
  method IavbCrc32(table: Table, crcIn: bv32, buf: array<bv8>, size: nat) returns (r: bv32)
    requires size <= buf.Length
    ensures r == Crc32(ByteStep(table), crcIn, buf[..size])
  {
    hide Invert, Feed;
    var crc, p := Invert(crcIn), 0;
    while p < size
      invariant p <= size
      invariant Fold(ByteStep(table), crc, buf[p..size]) == Fold(ByteStep(table), Invert(crcIn), buf[..size])
    {
      assert buf[p..size][1..] == buf[p + 1..size];
      crc := Feed(table, crc, buf[p] as bv32);
      p := p + 1;
    }
    r := Invert(crc);
  }

  /** The leading bytes, up to the first 4-byte boundary of the machine address or the end. */
  method FeedToBoundary(table: Table, crcIn: bv32, buf: array<bv8>, address: nat,
      size: nat) returns (crc: bv32, p: nat)
    requires size <= buf.Length
    ensures p <= size && (p == size || (address + p) % 4 == 0)
    ensures crc == Fold(ByteStep(table), crcIn, buf[..p])
  {
    hide Feed;
    crc, p := crcIn, 0;
    while (address + p) % 4 != 0 && p != size
      invariant p <= size
      invariant crc == Fold(ByteStep(table), crcIn, buf[..p])
      decreases size - p
    {
      assert buf[..p + 1] == buf[..p] + [buf[p]];
      FoldConcat(ByteStep(table), crcIn, buf[..p], [buf[p]]);
      crc := Feed(table, crc, buf[p] as bv32);
      p := p + 1;
    }
  }

  /** The bytes after the last whole word. */
  method FeedTail(table: Table, crcIn: bv32, buf: array<bv8>, start: nat, count: nat) returns (crc: bv32)
    requires start + count <= buf.Length
    ensures crc == Fold(ByteStep(table), crcIn, buf[start..start + count])
  {
    hide Feed;
    crc := crcIn;
    var p: nat, len: nat := start, count;
    while len != 0
      invariant p + len == start + count
      invariant Fold(ByteStep(table), crc, buf[p..p + len]) == Fold(ByteStep(table), crcIn, buf[start..start + count])
      decreases len
    {
      assert buf[p..p + len][1..] == buf[p + 1..p + len];
      crc := Feed(table, crc, buf[p] as bv32);
      p, len := p + 1, len - 1;
    }
  }

  /** The word loop: four zero bytes are fed after each load. */
  method FeedWords(table: Table, crcIn: bv32, buf: array<bv8>, start: nat, words: nat) returns (crc: bv32)
    requires start + 4 * words <= buf.Length
    ensures crc == Fold(ByteStep(table), crcIn, buf[start..start + 4 * words])
  {
    hide Feed, Word, Mix;
    crc := crcIn;
    var p, len := start, words;
    while len > 0
      invariant p + 4 * len == start + 4 * words && start <= p
      invariant Fold(ByteStep(table), crc, buf[p..p + 4 * len])
        == Fold(ByteStep(table), crcIn, buf[start..start + 4 * words])
      decreases len
    {
      FoldFour(ByteStep(table), crc, buf[p..p + 4 * len]);
      assert buf[p..p + 4 * len][4..] == buf[p + 4..p + 4 * len];
      WordStep(table, crc, buf[p], buf[p + 1], buf[p + 2], buf[p + 3]);
      crc := Mix(crc, Word(buf[p], buf[p + 1], buf[p + 2], buf[p + 3]));
      crc := Feed(table, crc, 0);
      crc := Feed(table, crc, 0);
      crc := Feed(table, crc, 0);
      crc := Feed(table, crc, 0);
      p, len := p + 4, len - 1;
    }
  }

  /**
   The flash updater's CRC of a buffer at machine address `address`: bytes up to the next 4-byte
   boundary, whole words, then the remaining bytes. It is the bootloader's CRC.
   */
  method Crc32Le(table: Table, crcIn: bv32, buf: array<bv8>, address: nat, size: nat) returns (r: bv32)
    requires size <= buf.Length
    ensures r == Crc32(ByteStep(table), crcIn, buf[..size])
  {
    hide Invert, Feed;
    var crc, head := FeedToBoundary(table, Invert(crcIn), buf, address, size);
    var words, tail := (size - head) / 4, (size - head) % 4;
    crc := FeedWords(table, crc, buf, head, words);
    crc := FeedTail(table, crc, buf, head + 4 * words, tail);
    r := Invert(crc);
    FoldConcat(ByteStep(table), Invert(crcIn), buf[..head], buf[head..head + 4 * words]);
    FoldConcat(ByteStep(table), Invert(crcIn), buf[..head + 4 * words], buf[head + 4 * words..size]);
    assert buf[..head] + buf[head..head + 4 * words] == buf[..head + 4 * words];
    assert buf[..head + 4 * words] + buf[head + 4 * words..size] == buf[..size];
  }

  // ----- the table both CRC-32 loops use -----

  /** One reflected division step by the CRC-32 polynomial. */
  function Divide(crc: bv32): bv32 {
    if Even(crc) then Halve(crc) else Mix(Halve(crc), 0xEDB8_8320)
  }

  /** Eight division steps. A table entry is this function of its index. */
  function DivideByte(crc: bv32): bv32 {
    Divide(Divide(Divide(Divide(Divide(Divide(Divide(Divide(crc))))))))
  }

  lemma DivideMixed(x: bv32, h: bv32)
    requires Even(h)
    ensures Divide(Mix(x, h)) == Mix(Divide(x), Halve(h))
  {
    hide Mix, Halve, Even;
    EvenMix(x, h);
    HalveMix(x, h);
    MixSwap(Halve(x), Halve(h), 0xEDB8_8320);
  }

  function HighBytes(v: bv32): bv32 {
    v & 0xFFFF_FF00
  }

  /** True if the `m` bits of `h` are clear. */
  predicate Clear(h: bv32, m: bv32) {
    h & m == 0
  }

  lemma HalveClears(h: bv32)
    ensures Clear(h, 0xFF) ==> Even(h) && Clear(Halve(h), 0x7F)
    ensures Clear(h, 0x7F) ==> Even(h) && Clear(Halve(h), 0x3F)
    ensures Clear(h, 0x3F) ==> Even(h) && Clear(Halve(h), 0x1F)
    ensures Clear(h, 0x1F) ==> Even(h) && Clear(Halve(h), 0x0F)
    ensures Clear(h, 0x0F) ==> Even(h) && Clear(Halve(h), 0x07)
    ensures Clear(h, 0x07) ==> Even(h) && Clear(Halve(h), 0x03)
    ensures Clear(h, 0x03) ==> Even(h) && Clear(Halve(h), 0x01)
    ensures Clear(h, 0x01) ==> Even(h)
  {
  }

  function Quarter(h: bv32): bv32 {
    h >> 2
  }

  lemma HalveTwo(h: bv32)
    ensures Halve(Halve(h)) == Quarter(h)
  {
  }

  lemma HighBytesShift(v: bv32)
    ensures Clear(HighBytes(v), 0xFF)
    ensures Quarter(Quarter(Quarter(Quarter(HighBytes(v))))) == DropByte(v)
  {
  }

  lemma SplitLowByte(v: bv32)
    ensures v == Mix(LowByte(v), HighBytes(v))
  {
  }

  /** Eight division steps divide the low byte and pass the high bits through as a shift. */
  lemma DivideByteSplits(mixed: bv32)
    ensures DivideByte(mixed) == Mix(DivideByte(LowByte(mixed)), DropByte(mixed))
  {
    hide Divide, Mix, Halve, Even, Clear, Quarter, LowByte, DropByte, HighBytes;
    var h := HighBytes(mixed);
    var h4 := Halve(Halve(Halve(Halve(h))));
    SplitLowByte(mixed);
    HighBytesShift(mixed);
    HalveTwo(h);
    HalveTwo(Halve(Halve(h)));
    HalveTwo(h4);
    HalveTwo(Halve(Halve(h4)));
    HalveClears(h);
    HalveClears(Halve(h));
    HalveClears(Halve(Halve(h)));
    HalveClears(Halve(Halve(Halve(h))));
    HalveClears(h4);
    HalveClears(Halve(h4));
    HalveClears(Halve(Halve(h4)));
    HalveClears(Halve(Halve(Halve(h4))));
    var x := LowByte(mixed);
    DivideMixed(x, h);
    DivideMixed(Divide(x), Halve(h));
    DivideMixed(Divide(Divide(x)), Halve(Halve(h)));
    DivideMixed(Divide(Divide(Divide(x))), Halve(Halve(Halve(h))));
    var x4 := Divide(Divide(Divide(Divide(x))));
    DivideMixed(x4, h4);
    DivideMixed(Divide(x4), Halve(h4));
    DivideMixed(Divide(Divide(x4)), Halve(Halve(h4)));
    DivideMixed(Divide(Divide(Divide(x4))), Halve(Halve(Halve(h4))));
  }

  /** With the polynomial's table, one lookup step is eight division steps with the byte mixed in. */
  lemma FeedIsDivision(crc: bv32, x: bv8)
    ensures FeedByte(DivideByte, crc, x) == DivideByte(Mix(crc, x as bv32))
  {
    hide DivideByte, Mix, LowByte, DropByte;
    DivideByteSplits(Mix(crc, x as bv32));
    DropByteMix(crc, x as bv32);
    ByteDropped(x);
    MixNothing(DropByte(crc));
  }

  lemma ByteDropped(x: bv8)
    ensures DropByte(x as bv32) == 0
  {
  }

  // ----- CRC-16 -----

  const CRC16_CCITT: bv16 := 0x1021

  function Mix16(x: bv16, y: bv16): bv16 {
    x ^ y
  }

  function Double(x: bv16): bv16 {
    x << 1
  }

  predicate Top(x: bv16) {
    x & 0x8000 != 0
  }

  lemma Mix16Swap(x: bv16, y: bv16, z: bv16)
    ensures Mix16(Mix16(x, y), z) == Mix16(Mix16(x, z), y) && Mix16(Mix16(x, y), y) == x
  {
  }

  lemma Mix16Double(x: bv16, y: bv16)
    ensures Double(Mix16(x, y)) == Mix16(Double(x), Double(y))
  {
  }

  lemma Mix16Top(x: bv16, y: bv16)
    ensures Top(Mix16(x, y)) == (Top(x) != Top(y))
  {
  }

  /** One step of the table builder: the top bits of data and accumulator decide together. */
  function TableShift(data: bv16, accum: bv16): bv16 {
    if Top(Mix16(data, accum)) then Mix16(Double(accum), CRC16_CCITT) else Double(accum)
  }

  /** One step of the bit loop: the register's top bit and the byte's bit decide one after the other. */
  function BitShift(crc: bv16, bit: bool): bv16 {
    var shifted := if Top(crc) then Mix16(Double(crc), CRC16_CCITT) else Double(crc);
    if bit then Mix16(shifted, CRC16_CCITT) else shifted
  }

  /** `n` builder steps on data that moves left each time. */
  function TableEntry(data: bv16, accum: bv16, n: nat): bv16
    decreases n
  {
    if n == 0 then accum else TableEntry(Double(data), TableShift(data, accum), n - 1)
  }

  /** The mask of the bit loop with `n` steps to go. */
  function Mask(n: nat): bv16 {
    match n
    case 8 => 0x80 case 7 => 0x40 case 6 => 0x20 case 5 => 0x10
    case 4 => 0x08 case 3 => 0x04 case 2 => 0x02 case 1 => 0x01
    case _ => 0
  }

  lemma MaskShifts(n: nat)
    requires n <= 8
    ensures Mask(n) != 0 <==> n > 0
    ensures n > 0 ==> Mask(n) >> 1 == Mask(n - 1)
  {
  }

  predicate Bit(ch: bv16, mask: bv16) {
    ch & mask != 0
  }

  /** The bit loop with `n` steps to go. */
  function BitLoop(crc: bv16, ch: bv16, n: nat): bv16
    decreases n
  {
    if n == 0 then crc else BitLoop(BitShift(crc, Bit(ch, Mask(n))), ch, n - 1)
  }

  function DoubleBy(x: bv16, n: nat): bv16
    decreases n
  {
    if n == 0 then x else DoubleBy(Double(x), n - 1)
  }

  /** The top bit of the data is that of the old register, flipped by the byte's bit, for `n` steps. */
  predicate Paired(ch: bv16, data: bv16, low: bv16, n: nat)
    decreases n
  {
    n == 0 ||
    ((Top(data) == (Top(low) != Bit(ch, Mask(n)))) && Paired(ch, Double(data), Double(low), n - 1))
  }

  lemma ShiftsAgree(bit: bool, data: bv16, accum: bv16, low: bv16)
    requires Top(data) == (Top(low) != bit)
    ensures BitShift(Mix16(accum, low), bit) == Mix16(TableShift(data, accum), Double(low))
  {
    hide Mix16, Double, Top;
    Mix16Double(accum, low);
    Mix16Top(accum, low);
    Mix16Top(data, accum);
    Mix16Swap(Double(accum), Double(low), CRC16_CCITT);
    Mix16Swap(Double(Mix16(accum, low)), CRC16_CCITT, CRC16_CCITT);
  }

  lemma {:induction false} LoopsAgree(ch: bv16, data: bv16, accum: bv16, low: bv16, n: nat)
    requires Paired(ch, data, low, n)
    ensures BitLoop(Mix16(accum, low), ch, n) == Mix16(TableEntry(data, accum, n), DoubleBy(low, n))
    decreases n
  {
    hide Mix16, Double, Top, Bit, Mask, BitShift, TableShift;
    if n > 0 {
      ShiftsAgree(Bit(ch, Mask(n)), data, accum, low);
      LoopsAgree(ch, Double(data), TableShift(data, accum), Double(low), n - 1);
    }
  }

  /** The entry for the index `i`. */
  function Entry16(i: bv16): bv16 {
    TableEntry(i << 8, 0, 8)
  }

  /** One table-driven step of a byte. */
  function TableStep16(crc: bv16, ch: bv8): bv16 {
    Mix16(crc << 8, Entry16(Mix16(crc >> 8, ch as bv16)))
  }

  /** One bit-driven step of a byte. */
  function BitStep16(crc: bv16, ch: bv8): bv16 {
    BitLoop(crc, ch as bv16, 8)
  }

  lemma PairedBits(crc: bv16, ch: bv16, data: bv16)
    requires data == Mix16(crc >> 8, ch) << 8 && ch < 256
    ensures Top(data) == (Top(crc) != Bit(ch, Mask(8)))
    ensures Top(data << 1) == (Top(crc << 1) != Bit(ch, Mask(7)))
    ensures Top(data << 2) == (Top(crc << 2) != Bit(ch, Mask(6)))
    ensures Top(data << 3) == (Top(crc << 3) != Bit(ch, Mask(5)))
    ensures Top(data << 4) == (Top(crc << 4) != Bit(ch, Mask(4)))
    ensures Top(data << 5) == (Top(crc << 5) != Bit(ch, Mask(3)))
    ensures Top(data << 6) == (Top(crc << 6) != Bit(ch, Mask(2)))
    ensures Top(data << 7) == (Top(crc << 7) != Bit(ch, Mask(1)))
  {
  }

  lemma DoublesShift(x: bv16)
    ensures Double(x) == x << 1 && Double(x << 1) == x << 2 && Double(x << 2) == x << 3
    ensures Double(x << 3) == x << 4
    ensures Double(x << 4) == x << 5 && Double(x << 5) == x << 6 && Double(x << 6) == x << 7
    ensures Double(x << 7) == x << 8
  {
  }

  lemma PairedStart(crc: bv16, ch: bv16)
    requires ch < 256
    ensures Paired(ch, Mix16(crc >> 8, ch) << 8, crc, 8)
  {
    var data := Mix16(crc >> 8, ch) << 8;
    PairedBits(crc, ch, data);
    DoublesShift(data);
    DoublesShift(crc);
    hide Double, Top, Bit, Mask, Mix16;
    assert Paired(ch, data << 7, crc << 7, 1);
    assert Paired(ch, data << 6, crc << 6, 2);
    assert Paired(ch, data << 5, crc << 5, 3);
    assert Paired(ch, data << 4, crc << 4, 4);
    assert Paired(ch, data << 3, crc << 3, 5);
    assert Paired(ch, data << 2, crc << 2, 6);
    assert Paired(ch, data << 1, crc << 1, 7);
  }

  lemma DoubleByEight(x: bv16)
    ensures DoubleBy(x, 8) == x << 8
  {
    DoublesShift(x);
    hide Double;
    assert DoubleBy(x << 6, 2) == x << 8;
    assert DoubleBy(x << 4, 4) == x << 8;
    assert DoubleBy(x << 2, 6) == x << 8;
  }

  /** From any common register, the table-driven step of a byte is the bit-driven one. */
  lemma TableStepIsBitStep(crc: bv16, ch: bv8)
    ensures TableStep16(crc, ch) == BitStep16(crc, ch)
  {
    hide Mix16, Paired, TableEntry, BitLoop, DoubleBy;
    var c := ch as bv16;
    PairedStart(crc, c);
    LoopsAgree(c, Mix16(crc >> 8, c) << 8, 0, crc, 8);
    DoubleByEight(crc);
    Mix16Zero(crc);
    Mix16Commutes(crc << 8, Entry16(Mix16(crc >> 8, c)));
  }

  lemma Mix16Zero(x: bv16)
    ensures Mix16(0, x) == x
  {
  }

  lemma Mix16Commutes(x: bv16, y: bv16)
    ensures Mix16(x, y) == Mix16(y, x)
  {
  }

  /** So the two CRC-16s agree on every message from any common starting register. */
  lemma {:induction false} Crc16sAgree(start: bv16, buf: seq<bv8>)
    ensures Fold(TableStep16, start, buf) == Fold(BitStep16, start, buf)
    decreases |buf|
  {
    hide TableStep16, BitStep16;
    if buf != [] {
      TableStepIsBitStep(start, buf[0]);
      Crc16sAgree(TableStep16(start, buf[0]), buf[1..]);
    }
  }

  /** The place of an index in the table. */
  function Slot(i: bv16): nat {
    i as nat
  }

  lemma SlotOf(i: bv16, k: bv16)
    ensures Slot(i) == Slot(k) ==> i == k
    ensures i < 256 ==> Slot(i) < 256
  {
    assert (i as nat) as bv16 == i && (k as nat) as bv16 == k;
    if i < 256 {
      assert i as nat < 256;
    }
  }

  lemma BelowNext(k: bv16, i: bv16)
    requires i < 256
    ensures i < i + 1 <= 256 && (k < i + 1 <==> k < i || k == i)
  {
  }

  /** Fills one table entry. */
  method BuildEntry16(i: bv16) returns (accum: bv16)
    ensures accum == Entry16(i)
  {
    hide TableShift, Double;
    var data, j := i << 8, 0;
    accum := 0;
    while j < 8
      invariant j <= 8
      invariant TableEntry(data, accum, 8 - j) == Entry16(i)
    {
      accum := TableShift(data, accum);
      data := Double(data);
      j := j + 1;
    }
  }

  /** Fills the table of 256 entries. */
  method BuildTable16(table: array<bv16>)
    requires table.Length == 256
    modifies table
    ensures forall i: bv16 | i < 256 :: Slot(i) < 256 && table[Slot(i)] == Entry16(i)
  {
    hide Slot, Entry16;
    var i: bv16 := 0;
    forall k: bv16 | k < 256 ensures Slot(k) < 256 {
      SlotOf(k, k);
    }
    while i < 256
      invariant i <= 256
      invariant forall k: bv16 | k < i :: Slot(k) < 256 && table[Slot(k)] == Entry16(k)
      decreases 256 - i
    {
      var accum := BuildEntry16(i);
      ghost var before := table[..];
      table[Slot(i)] := accum;
      forall k: bv16 | k < i + 1 ensures Slot(k) < 256 && table[Slot(k)] == Entry16(k) {
        SlotOf(i, k);
        BelowNext(k, i);
        assert k < i ==> before[Slot(k)] == Entry16(k);
      }
      BelowNext(i, i);
      i := i + 1;
    }
  }

  /** The table-driven CRC-16. */
  method Crc16(data: array<bv8>, size: nat) returns (accum: bv16)
    requires size <= data.Length
    ensures accum == Fold(TableStep16, 0, data[..size])
  {
    hide Slot, Entry16, Mix16;
    var table := new bv16[256];
    BuildTable16(table);
    accum := 0;
    var i := 0;
    while i < size
      invariant i <= size
      invariant forall k: bv16 | k < 256 :: Slot(k) < 256 && table[Slot(k)] == Entry16(k)
      invariant Fold(TableStep16, accum, data[i..size]) == Fold(TableStep16, 0, data[..size])
    {
      assert data[i..size][1..] == data[i + 1..size];
      var index := Mix16(accum >> 8, data[i] as bv16);
      IndexInTable(accum, data[i] as bv16);
      accum := Mix16(accum << 8, table[Slot(index)]);
      i := i + 1;
    }
  }

  lemma IndexInTable(crc: bv16, ch: bv16)
    requires ch < 256
    ensures Mix16(crc >> 8, ch) < 256
  {
  }

  /** Its loop body. */
  method ShiftOnce(crcIn: bv16, ch: bv16, i: bv16) returns (crc: bv16)
    ensures crc == BitShift(crcIn, Bit(ch, i))
  {
    if crcIn & 0x8000 != 0 {
      crc := crcIn << 1;
      crc := crc ^ CRC16_CCITT;
    } else {
      crc := crcIn << 1;
    }
    if ch & i != 0 {
      crc := crc ^ CRC16_CCITT;
    }
  }

  /** The bit loop of one byte. */
  method CrcCalculate(crcIn: bv16, ch: bv8) returns (crc: bv16)
    ensures crc == BitStep16(crcIn, ch)
  {
    crc := crcIn;
    var i: bv16 := 0x80;
    ghost var n: nat := 8;
    assert i == Mask(8);
    hide BitShift, Bit, Mask;
    while i != 0
      invariant n <= 8 && i == Mask(n) && (i != 0 <==> n > 0)
      invariant BitLoop(crc, ch as bv16, n) == BitStep16(crcIn, ch)
      decreases n
    {
      MaskShifts(n);
      MaskShifts(n - 1);
      crc := ShiftOnce(crc, ch as bv16, i);
      i, n := i >> 1, n - 1;
    }
  }

  /** The bit-driven CRC-16. */
  method CrcCcitt(data: array<bv8>, count: nat) returns (crc: bv16)
    requires count <= data.Length
    ensures crc == Fold(BitStep16, 0xFFFF, data[..count])
  {
    hide BitStep16;
    crc := 0xFFFF;
    var p := 0;
    while p < count
      invariant p <= count
      invariant Fold(BitStep16, crc, data[p..count]) == Fold(BitStep16, 0xFFFF, data[..count])
    {
      assert data[p..count][1..] == data[p + 1..count];
      crc := CrcCalculate(crc, data[p]);
      p := p + 1;
    }
  }

  // ----- check values -----

  /** Inverting is the complement: a register and its inverse add up to all ones. */
  lemma InvertComplements(x: bv32)
    ensures Invert(x) + x == 0xFFFF_FFFF && Invert(0) == 0xFFFF_FFFF
  {
  }

  /** The digits 1 to 9, the message of the published check values. */
  const DIGITS: seq<bv8> := [0x31, 0x32, 0x33, 0x34, 0x35, 0x36, 0x37, 0x38, 0x39]

  lemma FoldDigits<S>(step: (S, bv8) -> S, s: S)
    ensures var four := step(step(step(step(s, 0x31), 0x32), 0x33), 0x34);
      var eight := step(step(step(step(four, 0x35), 0x36), 0x37), 0x38);
      Fold(step, s, DIGITS) == step(eight, 0x39)
  {
    var four := step(step(step(step(s, 0x31), 0x32), 0x33), 0x34);
    FoldFour(step, s, DIGITS);
    assert DIGITS[4..] == [0x35, 0x36, 0x37, 0x38, 0x39];
    FoldFour(step, four, DIGITS[4..]);
    assert DIGITS[4..][4..] == [0x39];
  }

  lemma Division1()
    ensures DivideByte(Mix(0xFFFFFFFF, 0x31)) == 0x7C231048
    ensures DivideByte(Mix(0x7C231048, 0x32)) == 0xB0ACBB32
    ensures DivideByte(Mix(0xB0ACBB32, 0x33)) == 0x77B79C2D
  {
  }

  lemma Division2()
    ensures DivideByte(Mix(0x77B79C2D, 0x34)) == 0x641C1F5C
    ensures DivideByte(Mix(0x641C1F5C, 0x35)) == 0x340AC5E3
    ensures DivideByte(Mix(0x340AC5E3, 0x36)) == 0xF68D2C9E
  {
  }

  lemma Division3()
    ensures DivideByte(Mix(0xF68D2C9E, 0x37)) == 0xAFFC9660
    ensures DivideByte(Mix(0xAFFC9660, 0x38)) == 0x651F2550
    ensures DivideByte(Mix(0x651F2550, 0x39)) == 0x340BC6D9
  {
  }

  /** The CRC-32 of the digits is the published one. */
  lemma Check32()
    ensures Crc32(ByteStep(DivideByte), 0, DIGITS) == 0xCBF4_3926
  {
    InvertComplements(0);
    hide DivideByte, FeedByte, Mix;
    Division1();
    Division2();
    Division3();
    FeedIsDivision(0xFFFFFFFF, 0x31);
    FeedIsDivision(0x7C231048, 0x32);
    FeedIsDivision(0xB0ACBB32, 0x33);
    FeedIsDivision(0x77B79C2D, 0x34);
    FeedIsDivision(0x641C1F5C, 0x35);
    FeedIsDivision(0x340AC5E3, 0x36);
    FeedIsDivision(0xF68D2C9E, 0x37);
    FeedIsDivision(0xAFFC9660, 0x38);
    FeedIsDivision(0x651F2550, 0x39);
    FoldDigits(ByteStep(DivideByte), 0xFFFF_FFFF);
  }

  /** The eight steps of a byte, from its top bit on. */
  function EightShifts(crc: bv16, c: bv16): bv16 {
    var high := BitShift(BitShift(BitShift(BitShift(crc, Bit(c, 0x80)), Bit(c, 0x40)), Bit(c, 0x20)), Bit(c, 0x10));
    BitShift(BitShift(BitShift(BitShift(high, Bit(c, 0x08)), Bit(c, 0x04)), Bit(c, 0x02)), Bit(c, 0x01))
  }

  lemma FourShifts(crc: bv16, c: bv16, n: nat)
    requires n >= 4
    ensures var two := BitShift(BitShift(crc, Bit(c, Mask(n))), Bit(c, Mask(n - 1)));
      BitLoop(crc, c, n) == BitLoop(BitShift(BitShift(two, Bit(c, Mask(n - 2))), Bit(c, Mask(n - 3))), c, n - 4)
  {
    hide BitShift, Bit, Mask;
    var crc1 := BitShift(crc, Bit(c, Mask(n)));
    var crc2 := BitShift(crc1, Bit(c, Mask(n - 1)));
    var crc3 := BitShift(crc2, Bit(c, Mask(n - 2)));
    assert BitLoop(crc, c, n) == BitLoop(crc1, c, n - 1) == BitLoop(crc2, c, n - 2) == BitLoop(crc3, c, n - 3);
  }

  lemma StepIsShifts(crc: bv16, ch: bv8)
    ensures BitStep16(crc, ch) == EightShifts(crc, ch as bv16)
  {
    hide BitShift, Bit;
    var c := ch as bv16;
    var high := BitShift(BitShift(BitShift(BitShift(crc, Bit(c, 0x80)), Bit(c, 0x40)), Bit(c, 0x20)), Bit(c, 0x10));
    FourShifts(crc, c, 8);
    FourShifts(high, c, 4);
  }

  lemma Shifts1()
    ensures BitStep16(0x0000, 0x31) == 0x2672 && BitStep16(0xFFFF, 0x31) == 0xC782
    ensures BitStep16(0x2672, 0x32) == 0x20B5 && BitStep16(0xC782, 0x32) == 0x3DBA
    ensures BitStep16(0x20B5, 0x33) == 0x9752 && BitStep16(0x3DBA, 0x33) == 0x5BCE
  {
    hide BitStep16, BitLoop;
    StepIsShifts(0x0000, 0x31);
    StepIsShifts(0xFFFF, 0x31);
    StepIsShifts(0x2672, 0x32);
    StepIsShifts(0xC782, 0x32);
    StepIsShifts(0x20B5, 0x33);
    StepIsShifts(0x3DBA, 0x33);
  }

  lemma Shifts2()
    ensures BitStep16(0x9752, 0x34) == 0xD789 && BitStep16(0x5BCE, 0x34) == 0x5349
    ensures BitStep16(0xD789, 0x35) == 0x546C && BitStep16(0x5349, 0x35) == 0x4560
    ensures BitStep16(0x546C, 0x36) == 0x20E4 && BitStep16(0x4560, 0x36) == 0x2EF4
  {
    hide BitStep16, BitLoop;
    StepIsShifts(0x9752, 0x34);
    StepIsShifts(0x5BCE, 0x34);
    StepIsShifts(0xD789, 0x35);
    StepIsShifts(0x5349, 0x35);
    StepIsShifts(0x546C, 0x36);
    StepIsShifts(0x4560, 0x36);
  }

  lemma Shifts3()
    ensures BitStep16(0x20E4, 0x37) == 0x86D6 && BitStep16(0x2EF4, 0x37) == 0x7718
    ensures BitStep16(0x86D6, 0x38) == 0x9015 && BitStep16(0x7718, 0x38) == 0xA12B
    ensures BitStep16(0x9015, 0x39) == 0x31C3 && BitStep16(0xA12B, 0x39) == 0x29B1
  {
    hide BitStep16, BitLoop;
    StepIsShifts(0x20E4, 0x37);
    StepIsShifts(0x2EF4, 0x37);
    StepIsShifts(0x86D6, 0x38);
    StepIsShifts(0x7718, 0x38);
    StepIsShifts(0x9015, 0x39);
    StepIsShifts(0xA12B, 0x39);
  }

  /** And so are the CRC-16s from the two starting registers. */
  lemma Check16()
    ensures Fold(TableStep16, 0, DIGITS) == 0x31C3 && Fold(BitStep16, 0xFFFF, DIGITS) == 0x29B1
  {
    hide BitStep16, TableStep16;
    Shifts1();
    Shifts2();
    Shifts3();
    FoldDigits(BitStep16, 0);
    FoldDigits(BitStep16, 0xFFFF);
    Crc16sAgree(0, DIGITS);
  }
}
