/** The patch loop of do_patch.c: a new image rebuilt from the old one and three streams. */
module BsPatch {
  import opened Prelude

  // ----- numbers in the patch -----

  /** The value of little-endian bytes. */
  function Magnitude(b: seq<byte>): nat {
    if b == [] then 0 else var low: nat := b[0]; low + 256 * Magnitude(b[1..])
  }

  function DropSign(b: byte): byte {
    if b >= 128 then b - 128 else b
  }

  function SetSign(b: byte): byte {
    if b >= 128 then b else b + 128
  }

  /** `offtin`: eight bytes, least significant first, the top bit a sign. */
  function Offtin(b: seq<byte>): int
    requires |b| == 8
  {
    var y: int := Magnitude(b[..7] + [DropSign(b[7])]);
    if b[7] >= 128 then -y else y
  }

  function Bytes(y: nat, n: nat): (b: seq<byte>)
    ensures |b| == n
    decreases n
  {
    if n == 0 then [] else [y % 256] + Bytes(y / 256, n - 1)
  }

  /** The encoding `Offtin` reads. */
  function Offtout(x: int): (b: seq<byte>)
    requires -0x8000_0000_0000_0000 < x < 0x8000_0000_0000_0000
    ensures |b| == 8
  {
    var y := Bytes(if x < 0 then -x else x, 8);
    if x < 0 then y[7 := SetSign(y[7])] else y
  }

  function Power256(n: nat): nat {
    if n == 0 then 1 else 256 * Power256(n - 1)
  }

  lemma {:induction false} MagnitudeOfBytes(y: nat, n: nat)
    requires y < Power256(n)
    ensures Magnitude(Bytes(y, n)) == y
    decreases n
  {
    if n > 0 {
      MagnitudeOfBytes(y / 256, n - 1);
      assert Bytes(y, n)[1..] == Bytes(y / 256, n - 1);
    }
  }

  lemma {:induction false} LastByteSmall(y: nat, n: nat)
    requires n > 0 && 2 * y < Power256(n)
    ensures Bytes(y, n)[n - 1] < 128
    decreases n
  {
    if n > 1 {
      assert 2 * (y / 256) < Power256(n - 1);
      LastByteSmall(y / 256, n - 1);
    }
  }

  lemma EightBytes()
    ensures Power256(8) == 0x1_0000_0000_0000_0000
  {
    assert Power256(4) == 0x1_0000_0000;
  }

  /** Reading a number back gives the number. */
  lemma OfftinOfOfftout(x: int)
    requires -0x8000_0000_0000_0000 < x < 0x8000_0000_0000_0000
    ensures Offtin(Offtout(x)) == x
  {
    var y := if x < 0 then -x else x;
    EightBytes();
    hide Power256, Bytes, Magnitude;
    MagnitudeOfBytes(y, 8);
    LastByteSmall(y, 8);
    var b := Bytes(y, 8);
    assert Offtout(x)[..7] + [DropSign(Offtout(x)[7])] == b;
  }

  /** The number read: seven bits of the last byte and all of the others count, by powers of 256. */
  lemma OfftinExactly(b: seq<byte>)
    requires |b| == 8
    ensures var b0: int, b1: int, b2: int, b3: int := b[0], b[1], b[2], b[3];
      var b4: int, b5: int, b6: int, b7: int := b[4], b[5], b[6], b[7];
      var m := b0 + 0x100 * b1 + 0x1_0000 * b2 + 0x100_0000 * b3 + 0x1_0000_0000 * b4 + 0x100_0000_0000 * b5
        + 0x1_0000_0000_0000 * b6 + 0x100_0000_0000_0000 * (b7 % 128);
      Offtin(b) == if b7 < 128 then m else -m
  {
    var c := b[..7] + [DropSign(b[7])];
    assert b[7] % 128 == DropSign(b[7]);
    EightSum(c);
    hide Magnitude;
  }

  lemma EightSum(c: seq<byte>)
    requires |c| == 8
    ensures var c0: int, c1: int, c2: int, c3: int := c[0], c[1], c[2], c[3];
      var c4: int, c5: int, c6: int, c7: int := c[4], c[5], c[6], c[7];
      Magnitude(c)
      == c0 + 0x100 * c1 + 0x1_0000 * c2 + 0x100_0000 * c3 + 0x1_0000_0000 * c4 + 0x100_0000_0000 * c5
        + 0x1_0000_0000_0000 * c6 + 0x100_0000_0000_0000 * c7
  {
    hide Magnitude;
    assert c[0..] == c && c[8..] == [];
    MagnitudeFrom(c, 0);
    MagnitudeFrom(c, 1);
    MagnitudeFrom(c, 2);
    MagnitudeFrom(c, 3);
    MagnitudeFrom(c, 4);
    MagnitudeFrom(c, 5);
    MagnitudeFrom(c, 6);
    MagnitudeFrom(c, 7);
    NoMagnitude();
  }

  lemma MagnitudeFrom(b: seq<byte>, i: nat)
    requires i < |b|
    ensures var low: int := b[i]; Magnitude(b[i..]) == low + 256 * Magnitude(b[i + 1..])
  {
    assert b[i..][1..] == b[i + 1..];
  }

  lemma NoMagnitude()
    ensures Magnitude([]) == 0
  {
  }

  // ----- the patch loop -----

  /**
   One control triple: add `add` bytes to the old image, copy `copy` extra bytes, then move by `seek` in
   the old image.
   */
  datatype Control = Control(add: int, copy: int, seek: int)

  /** The byte of the old image at a position, zero outside it. */
  function OldByte(base: seq<byte>, at: int): byte {
    if 0 <= at < |base| then base[at] else 0
  }

  /** `diff` with the old image added from `oldPos` on. */
  function Added(base: seq<byte>, oldPos: int, diff: seq<byte>): (s: seq<byte>)
    ensures |s| == |diff|
  {
    seq(|diff|, i requires 0 <= i < |diff| => (diff[i] + OldByte(base, oldPos + i)) % 256)
  }

  /** The bytes the patch produces from `done` bytes on, or none if it is corrupt. */
  function Patched(base: seq<byte>, newSize: nat, done: nat, oldPos: int, control: seq<Control>,
      diff: seq<byte>, extra: seq<byte>): (r: Option<seq<byte>>)
    requires done <= newSize
    ensures r.Some? ==> |r.value| == newSize - done
    decreases |control|
  {
    if done == newSize then Some([])
    else if control == [] then None
    else
      var c := control[0];
      if done + c.add > newSize || c.add < 0 || |diff| < c.add then None
      else if done + c.add + c.copy > newSize || c.copy < 0 || |extra| < c.copy then None
      else
        var rest := Patched(base, newSize, done + c.add + c.copy, oldPos + c.add + c.seek, control[1..],
            diff[c.add..], extra[c.copy..]);
        if rest.None? then None
        else Some(Added(base, oldPos, diff[..c.add]) + extra[..c.copy] + rest.value)
  }

  /** True if the triple `c` fits the output and the streams. */
  predicate Fits(c: Control, newSize: nat, done: nat, diff: nat, extra: nat) {
    0 <= c.add <= diff && 0 <= c.copy <= extra && done + c.add + c.copy <= newSize
  }

  /** What one triple contributes. */
  lemma PatchedStep(base: seq<byte>, newSize: nat, done: nat, oldPos: int, control: seq<Control>,
      diff: seq<byte>, extra: seq<byte>)
    requires done < newSize
    ensures control == [] || !Fits(control[0], newSize, done, |diff|, |extra|) ==>
      Patched(base, newSize, done, oldPos, control, diff, extra) == None
    ensures control != [] && Fits(control[0], newSize, done, |diff|, |extra|) ==>
      var c := control[0];
      var rest := Patched(base, newSize, done + c.add + c.copy, oldPos + c.add + c.seek, control[1..],
          diff[c.add..], extra[c.copy..]);
      Patched(base, newSize, done, oldPos, control, diff, extra) ==
        if rest.None? then None else Some(Added(base, oldPos, diff[..c.add]) + extra[..c.copy] + rest.value)
  {
  }

  /** `got` followed by what is still to come, if it can come. */
  function Then(got: seq<byte>, rest: Option<seq<byte>>): Option<seq<byte>> {
    if rest.None? then None else Some(got + rest.value)
  }

  lemma ThenThen(a: seq<byte>, b: seq<byte>, rest: Option<seq<byte>>)
    ensures Then(a, Then(b, rest)) == Then(a + b, rest)
  {
    if rest.Some? {
      assert a + (b + rest.value) == (a + b) + rest.value;
    }
  }

  /** Rebuilds the new image in place, in the mapped output `image`. */
  method ApplyPatch(base: seq<byte>, image: array<byte>, control: seq<Control>, diff: seq<byte>,
      extra: seq<byte>) returns (ok: bool)
    modifies image
    ensures ok <==> Patched(base, image.Length, 0, 0, control, diff, extra).Some?
    ensures ok ==> image[..] == Patched(base, image.Length, 0, 0, control, diff, extra).value
  {
    hide Patched, Added;
    var newPos: nat, oldPos, triples, diffs, extras := 0, 0, control, diff, extra;
    ghost var whole := Patched(base, image.Length, 0, 0, control, diff, extra);
    assert Then(image[..0], whole) == whole by {
      if whole.Some? {
        assert image[..0] + whole.value == whole.value;
      }
    }
    while newPos < image.Length
      invariant newPos <= image.Length
      invariant whole == Then(image[..newPos], Patched(base, image.Length, newPos, oldPos, triples, diffs, extras))
      decreases |triples|
    {
      PatchedStep(base, image.Length, newPos, oldPos, triples, diffs, extras);
      if triples == [] {
        return false;
      }
      var c := triples[0];
      if newPos + c.add > image.Length || c.add < 0 || |diffs| < c.add {
        return false;
      }
      ghost var before := image[..newPos];
      AddOld(base, oldPos, image, newPos, diffs[..c.add]);
      if newPos + c.add + c.copy > image.Length || c.copy < 0 || |extras| < c.copy {
        return false;
      }
      ghost var added := image[..newPos + c.add];
      assert added == before + Added(base, oldPos, diffs[..c.add]);
      CopyExtra(image, newPos + c.add, extras[..c.copy]);
      newPos := newPos + c.add + c.copy;
      oldPos := oldPos + c.add + c.seek;
      ghost var step := Added(base, oldPos - c.add - c.seek, diffs[..c.add]) + extras[..c.copy];
      assert image[..newPos] == before + step;
      triples, diffs, extras := triples[1..], diffs[c.add..], extras[c.copy..];
      ThenThen(before, step, Patched(base, image.Length, newPos, oldPos, triples, diffs, extras));
    }
    PatchedEnd(base, newPos, oldPos, triples, diffs, extras);
    assert image[..newPos] + [] == image[..];
    return true;
  }

  lemma PatchedEnd(base: seq<byte>, newSize: nat, oldPos: int, control: seq<Control>, diff: seq<byte>,
      extra: seq<byte>)
    ensures Patched(base, newSize, newSize, oldPos, control, diff, extra) == Some([])
  {
  }

  /** Reads the difference bytes into the output, then adds the old bytes that exist. */
  method AddOld(base: seq<byte>, oldPos: int, image: array<byte>, at: nat, diff: seq<byte>)
    requires at + |diff| <= image.Length
    modifies image
    ensures image[..at] == old(image[..at])
    ensures image[at..at + |diff|] == Added(base, oldPos, diff)
  {
    CopyExtra(image, at, diff);
    ghost var sums := Added(base, oldPos, diff);
    forall k | at <= k < at + |diff| ensures image[k] == diff[k - at] {
      assert image[k] == image[at..at + |diff|][k - at];
    }
    var i := 0;
    while i < |diff|
      invariant 0 <= i <= |diff|
      invariant image[..at] == old(image[..at])
      invariant forall k | at <= k < at + i :: image[k] == sums[k - at]
      invariant forall k | at + i <= k < at + |diff| :: image[k] == diff[k - at]
    {
      SumIs(base, oldPos, diff, i);
      if 0 <= oldPos + i < |base| {
        var sum: int := image[at + i];
        image[at + i] := (sum + base[oldPos + i]) % 256;
      }
      i := i + 1;
    }
    forall k | 0 <= k < |diff| ensures image[at..at + |diff|][k] == sums[k] {
      assert image[at + k] == sums[at + k - at];
    }
  }

  lemma SumIs(base: seq<byte>, oldPos: int, diff: seq<byte>, i: nat)
    requires i < |diff|
    ensures var d: int := diff[i];
      if 0 <= oldPos + i < |base| then Added(base, oldPos, diff)[i] == (d + base[oldPos + i]) % 256
      else Added(base, oldPos, diff)[i] == d
  {
    var d: int := diff[i];
    assert d % 256 == d;
  }

  /** Reads `bytes` into the output. */
  method CopyExtra(image: array<byte>, at: nat, bytes: seq<byte>)
    requires at + |bytes| <= image.Length
    modifies image
    ensures image[..at] == old(image[..at]) && image[at..at + |bytes|] == bytes
  {
    forall i | 0 <= i < |bytes| {
      image[at + i] := bytes[i];
    }
  }

  // ----- a patch made for an image rebuilds it -----

  /** How the new image is cut: `add` bytes expressed as differences, then `copy` bytes as they are. */
  datatype Cut = Cut(add: nat, copy: nat, seek: int)

  function CutSize(cuts: seq<Cut>): nat {
    if cuts == [] then 0 else cuts[0].add + cuts[0].copy + CutSize(cuts[1..])
  }

  function Controls(cuts: seq<Cut>): (c: seq<Control>)
    ensures |c| == |cuts|
  {
    if cuts == [] then [] else [Control(cuts[0].add, cuts[0].copy, cuts[0].seek)] + Controls(cuts[1..])
  }

  /** The differences from the old image at `oldPos`. */
  function Differences(base: seq<byte>, oldPos: int, target: seq<byte>): (d: seq<byte>)
    ensures |d| == |target|
  {
    seq(|target|, i requires 0 <= i < |target| => (target[i] + 256 - OldByte(base, oldPos + i)) % 256)
  }

  /** The difference stream of `target` cut this way. */
  function DiffStream(base: seq<byte>, oldPos: int, target: seq<byte>, cuts: seq<Cut>): seq<byte>
    requires |target| == CutSize(cuts)
    decreases |cuts|
  {
    if cuts == [] then []
    else
      var c := cuts[0];
      Differences(base, oldPos, target[..c.add])
          + DiffStream(base, oldPos + c.add + c.seek, target[c.add + c.copy..], cuts[1..])
  }

  /** The extra stream of `target` cut this way. */
  function ExtraStream(target: seq<byte>, cuts: seq<Cut>): seq<byte>
    requires |target| == CutSize(cuts)
    decreases |cuts|
  {
    if cuts == [] then []
    else
      var c := cuts[0];
      target[c.add..c.add + c.copy] + ExtraStream(target[c.add + c.copy..], cuts[1..])
  }

  lemma AddedDifferences(base: seq<byte>, oldPos: int, target: seq<byte>)
    ensures Added(base, oldPos, Differences(base, oldPos, target)) == target
  {
  }

  lemma HeadOf(a: seq<byte>, b: seq<byte>, more: seq<byte>)
    ensures (a + b + more)[..|a|] == a && (a + b + more)[|a|..] == b + more
  {
  }

  /** One cut of the difference stream, and what follows it. */
  lemma DiffStreamHead(base: seq<byte>, oldPos: int, target: seq<byte>, cuts: seq<Cut>, more: seq<byte>)
    requires cuts != [] && |target| == CutSize(cuts)
    ensures var c := cuts[0]; var diff := DiffStream(base, oldPos, target, cuts) + more;
      && |diff| >= c.add && diff[..c.add] == Differences(base, oldPos, target[..c.add])
      && diff[c.add..] == DiffStream(base, oldPos + c.add + c.seek, target[c.add + c.copy..], cuts[1..]) + more
  {
    hide *;
    DiffStreamCut(base, oldPos, target, cuts);
    var c := cuts[0];
    HeadOf(Differences(base, oldPos, target[..c.add]),
        DiffStream(base, oldPos + c.add + c.seek, target[c.add + c.copy..], cuts[1..]), more);
  }

  lemma DiffStreamCut(base: seq<byte>, oldPos: int, target: seq<byte>, cuts: seq<Cut>)
    requires cuts != [] && |target| == CutSize(cuts)
    ensures var c := cuts[0];
      && |target| == c.add + c.copy + CutSize(cuts[1..])
      && DiffStream(base, oldPos, target, cuts)
         == Differences(base, oldPos, target[..c.add])
            + DiffStream(base, oldPos + c.add + c.seek, target[c.add + c.copy..], cuts[1..])
  {
    hide Differences;
  }

  /** One cut of the extra stream, and what follows it. */
  lemma ExtraStreamHead(target: seq<byte>, cuts: seq<Cut>, more: seq<byte>)
    requires cuts != [] && |target| == CutSize(cuts)
    ensures var c := cuts[0]; var extra := ExtraStream(target, cuts) + more;
      && |extra| >= c.copy && extra[..c.copy] == target[c.add..c.add + c.copy]
      && extra[c.copy..] == ExtraStream(target[c.add + c.copy..], cuts[1..]) + more
  {
    var c := cuts[0];
    HeadOf(target[c.add..c.add + c.copy], ExtraStream(target[c.add + c.copy..], cuts[1..]), more);
  }

  lemma NotEmpty(cuts: seq<Cut>)
    ensures CutSize(cuts) > 0 ==> cuts != []
  {
  }

  lemma ControlFits(c: Control, newSize: nat, done: nat, diff: nat, extra: nat)
    ensures 0 <= c.add <= diff && 0 <= c.copy <= extra && done + c.add + c.copy <= newSize
        ==> Fits(c, newSize, done, diff, extra)
  {
  }

  lemma ControlsHead(cuts: seq<Cut>)
    requires cuts != []
    ensures CutSize(cuts) == cuts[0].add + cuts[0].copy + CutSize(cuts[1..])
    ensures Controls(cuts)[0] == Control(cuts[0].add, cuts[0].copy, cuts[0].seek)
    ensures Controls(cuts)[1..] == Controls(cuts[1..])
  {
  }

  /** However an image is cut, and wherever the cuts point in the old image, the patch rebuilds it. */
  lemma {:induction false} PatchRebuilds(base: seq<byte>, newSize: nat, done: nat, oldPos: int,
      target: seq<byte>, cuts: seq<Cut>, moreDiff: seq<byte>, moreExtra: seq<byte>)
    requires |target| == CutSize(cuts) && done + |target| == newSize
    ensures Patched(base, newSize, done, oldPos, Controls(cuts),
                    DiffStream(base, oldPos, target, cuts) + moreDiff, ExtraStream(target, cuts) + moreExtra)
         == Some(target)
    decreases |cuts|
  {
    hide *;
    if done == newSize {
      PatchedEnd(base, newSize, oldPos, Controls(cuts), DiffStream(base, oldPos, target, cuts) + moreDiff,
          ExtraStream(target, cuts) + moreExtra);
    } else {
      NotEmpty(cuts);
      ControlsHead(cuts);
      var c := cuts[0];
      PatchRebuilds(base, newSize, done + c.add + c.copy, oldPos + c.add + c.seek, target[c.add + c.copy..],
          cuts[1..], moreDiff, moreExtra);
      RebuildCut(base, newSize, done, oldPos, target, cuts, moreDiff, moreExtra);
    }
  }

  /** The first cut is rebuilt before the others. */
  lemma RebuildCut(base: seq<byte>, newSize: nat, done: nat, oldPos: int, target: seq<byte>,
      cuts: seq<Cut>, moreDiff: seq<byte>, moreExtra: seq<byte>)
    requires cuts != [] && |target| == CutSize(cuts) && done + |target| == newSize && done < newSize
    requires |target| == cuts[0].add + cuts[0].copy + CutSize(cuts[1..])
    requires var c := cuts[0]; var tail := target[c.add + c.copy..];
      Patched(base, newSize, done + c.add + c.copy, oldPos + c.add + c.seek, Controls(cuts[1..]),
              DiffStream(base, oldPos + c.add + c.seek, tail, cuts[1..]) + moreDiff,
              ExtraStream(tail, cuts[1..]) + moreExtra) == Some(tail)
    ensures Patched(base, newSize, done, oldPos, Controls(cuts),
                    DiffStream(base, oldPos, target, cuts) + moreDiff, ExtraStream(target, cuts) + moreExtra)
         == Some(target)
  {
    hide *;
    DiffStreamHead(base, oldPos, target, cuts, moreDiff);
    ExtraStreamHead(target, cuts, moreExtra);
    ControlsHead(cuts);
    var diff, extra := DiffStream(base, oldPos, target, cuts) + moreDiff, ExtraStream(target, cuts) + moreExtra;
    var c := cuts[0];
    var head, middle, tail := target[..c.add], target[c.add..c.add + c.copy], target[c.add + c.copy..];
    ControlFits(Controls(cuts)[0], newSize, done, |diff|, |extra|);
    AddedDifferences(base, oldPos, head);
    RebuildStep(base, newSize, done, oldPos, Controls(cuts), diff, extra, head, middle, tail);
    ThreeParts(target, c.add, c.copy);
  }

  lemma RebuildStep(base: seq<byte>, newSize: nat, done: nat, oldPos: int, control: seq<Control>,
      diff: seq<byte>, extra: seq<byte>, head: seq<byte>, middle: seq<byte>, tail: seq<byte>)
    requires done < newSize && control != [] && Fits(control[0], newSize, done, |diff|, |extra|)
    requires Added(base, oldPos, diff[..control[0].add]) == head && extra[..control[0].copy] == middle
    requires var c := control[0];
      Patched(base, newSize, done + c.add + c.copy, oldPos + c.add + c.seek, control[1..],
              diff[c.add..], extra[c.copy..]) == Some(tail)
    ensures Patched(base, newSize, done, oldPos, control, diff, extra) == Some(head + middle + tail)
  {
    hide Patched, Added;
    PatchedStep(base, newSize, done, oldPos, control, diff, extra);
  }

  lemma ThreeParts(s: seq<byte>, a: nat, b: nat)
    requires a + b <= |s|
    ensures s == s[..a] + s[a..a + b] + s[a + b..]
  {
  }
}
