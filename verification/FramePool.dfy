/**
 The frame pool of project/SmartCam/app/ringbuffer.c: five frames circulating between a queue of
 free frames and a queue of used ones, with one capturing and one sending thread.
 */
module FramePool {
  import opened Prelude

  const MAX_BUFFERS := 5

  // ----- the queue on its circular array -----

  class FrameQueue {
    const items: array<nat>
    var head: nat
    var tail: nat
    var count: nat

    ghost predicate Valid()
      reads this, items
    {
      items.Length == 5 && head < 5 && tail < 5 && count <= 5 && tail == Slot(head, count)
    }

    /** The queued frames, oldest first. */
    ghost function Contents(): (s: seq<nat>)
      requires Valid()
      reads this, items
      ensures |s| == count
    {
      seq(count, i requires 0 <= i < count reads this, items requires Valid() => items[Slot(head, i)])
    }

    constructor ()
      ensures Valid() && fresh(items) && Contents() == []
    {
      items := new nat[MAX_BUFFERS];
      head, tail, count := 0, 0, 0;
    }

    /** `queue_push` once the wait for room is over. */
    method Push(item: nat)
      requires Valid() && count < 5
      modifies this, items
      ensures Valid() && Contents() == old(Contents()) + [item]
    {
      SlotsApart(head, count);
      SlotNext(head, count);
      hide Slot;
      items[tail] := item;
      tail := (tail + 1) % MAX_BUFFERS;
      count := count + 1;
      assert Contents() == old(Contents()) + [item];
    }

    /** `queue_pop` once the wait for an item is over. */
    method Pop() returns (item: nat)
      requires Valid() && count > 0
      modifies this
      ensures Valid() && old(Contents()) == [item] + Contents()
    {
      item := items[head];
      SlotNext(head, 0);
      SlotShift(head, (head + 1) % MAX_BUFFERS);
      hide Slot;
      head := (head + 1) % MAX_BUFFERS;
      count := count - 1;
      assert old(Contents()) == [item] + Contents();
    }
  }

  /** The place of the item at `i` in the array, which wraps round. */
  function Slot(head: nat, i: nat): (k: nat)
    ensures k < 5
  {
    (head + i) % 5
  }

  lemma Wrapped(n: nat)
    requires n < 15
    ensures n % 5 == if n < 5 then n else if n < 10 then n - 5 else n - 10
  {
  }

  lemma SlotsApart(head: nat, count: nat)
    requires head < 5 && count < 5
    ensures forall i | 0 <= i < count :: Slot(head, i) != Slot(head, count)
  {
    forall i | 0 <= i < count ensures Slot(head, i) != Slot(head, count) {
      Wrapped(head + i);
      Wrapped(head + count);
    }
  }

  lemma SlotNext(head: nat, i: nat)
    requires head < 5 && i <= 5
    ensures Slot(head, i + 1) == (Slot(head, i) + 1) % MAX_BUFFERS
    ensures Slot(head, 0) == head
  {
    Wrapped(head + i);
    Wrapped(head + i + 1);
    Wrapped(Slot(head, i) + 1);
  }

  lemma SlotShift(head: nat, next: nat)
    requires head < 5 && next == (head + 1) % MAX_BUFFERS
    ensures forall i | 0 <= i < 5 :: Slot(next, i) == Slot(head, i + 1)
  {
    forall i | 0 <= i < 5 ensures Slot(next, i) == Slot(head, i + 1) {
      Wrapped(head + 1);
      Wrapped(next + i);
      Wrapped(head + 1 + i);
    }
  }

  /** The queueing half of `ringbuffer_init`: every frame starts in the free queue. */
  method InitPool() returns (free: FrameQueue)
    ensures fresh(free) && fresh(free.items) && free.Valid()
    ensures free.Contents() == [0, 1, 2, 3, 4]
  {
    free := new FrameQueue();
    var i := 0;
    while i < 5
      invariant 0 <= i <= 5 && free.Valid() && fresh(free.items)
      invariant free.Contents() == seq(i, k => k)
    {
      free.Push(i);
      i := i + 1;
    }
  }

  // ----- filling a frame -----

  /** Where column `c` of row `r` lies in lines of `stride` bytes. */
  function Cell(r: nat, c: nat, stride: nat): (at: nat)
    ensures at >= c
  {
    r * stride + c
  }

  lemma {:induction false} RowBelow(row: nat, next: nat, stride: nat)
    requires row < next
    ensures row * stride + stride <= next * stride
    decreases next
  {
    if row + 1 < next {
      RowBelow(row, next - 1, stride);
    }
    assert (next - 1) * stride + stride == next * stride;
  }

  /** The pixel rows of a captured image, without the padding that ends each of its lines. */
  ghost predicate RowsCopied(buf: seq<byte>, image: seq<byte>, rows: nat, width: nat, bytesPerLine: nat) {
    forall r, c | 0 <= r < rows && 0 <= c < width ::
      Cell(r, c, width) < |buf| && Cell(r, c, bytesPerLine) < |image|
      && buf[Cell(r, c, width)] == image[Cell(r, c, bytesPerLine)]
  }

  /** The copying half of `ringbuffer_push`. */
  method CopyImage(buf: array<byte>, image: seq<byte>, width: nat, height: nat, bytesPerLine: nat,
      size: nat)
    requires width <= bytesPerLine && width * height <= buf.Length
    requires bytesPerLine == width ==> width * height <= size <= buf.Length && size <= |image|
    requires bytesPerLine * height <= |image|
    modifies buf
    ensures RowsCopied(buf[..], image, height, width, bytesPerLine)
  {
    if bytesPerLine == width {
      forall k | 0 <= k < size {
        buf[k] := image[k];
      }
      AllCells(buf[..], image, size, height, width);
    } else {
      var i := 0;
      while i < height
        invariant i <= height
        invariant RowsCopied(buf[..], image, i, width, bytesPerLine)
      {
        RowBelow(i, height, width);
        RowBelow(i, height, bytesPerLine);
        CopyRow(buf, Cell(i, 0, width), Cell(i, 0, bytesPerLine), i, image, width, bytesPerLine);
        i := i + 1;
      }
    }
  }

  lemma AllCells(buf: seq<byte>, image: seq<byte>, size: nat, rows: nat, width: nat)
    requires width * rows <= size <= |buf| && size <= |image| && buf[..size] == image[..size]
    ensures RowsCopied(buf, image, rows, width, width)
  {
    forall r, c | 0 <= r < rows && 0 <= c < width
      ensures Cell(r, c, width) < size && buf[Cell(r, c, width)] == image[Cell(r, c, width)]
    {
      RowBelow(r, rows, width);
      assert buf[..size][Cell(r, c, width)] == image[..size][Cell(r, c, width)];
    }
  }

  /** One `memcpy` of a row behind the rows already there. */
  method CopyRow(buf: array<byte>, to: nat, from: nat, ghost rows: nat, image: seq<byte>, width: nat,
      ghost bytesPerLine: nat)
    requires to == Cell(rows, 0, width) && from == Cell(rows, 0, bytesPerLine)
    requires to + width <= buf.Length && from + width <= |image|
    requires RowsCopied(buf[..], image, rows, width, bytesPerLine)
    modifies buf
    ensures RowsCopied(buf[..], image, rows + 1, width, bytesPerLine)
  {
    ghost var before := buf[..];
    forall c | 0 <= c < width {
      buf[to + c] := image[from + c];
    }
    forall r, c | 0 <= r < rows + 1 && 0 <= c < width
      ensures Cell(r, c, width) < |buf[..]| && Cell(r, c, bytesPerLine) < |image|
      ensures buf[..][Cell(r, c, width)] == image[Cell(r, c, bytesPerLine)]
    {
      if r < rows {
        RowBelow(r, rows, width);
        assert before[Cell(r, c, width)] == image[Cell(r, c, bytesPerLine)];
      } else {
        assert Cell(r, c, width) == to + c && Cell(r, c, bytesPerLine) == from + c;
      }
    }
  }
}
