/** The FIFO queue of records between mappers and one reducer. The source
    guards it with a mutex and two condition variables; here its operations
    run one at a time, and a caller that would have waited (enqueue on a full
    buffer, dequeue on an empty one) is a caller these methods exclude. */
module Buffers {
  import opened Records
  import opened Collections

  /** `MAXSIZE`: how many records a buffer holds at most. */
  const MAX_SIZE: nat := 10

  class BoundedBuffer {
    /** The vector of queued records, oldest first. */
    var buffer: seq<Data>

    /** The capacity bound every operation keeps. */
    ghost predicate Valid()
      reads this
    {
      |buffer| <= MAX_SIZE
    }

    constructor ()
      ensures Valid() && buffer == []
    {
      buffer := [];
    }

    /** Append at the back; the source waits while the buffer is full. */
    method Enqueue(word: Data)
      requires Valid() && |buffer| < MAX_SIZE
      modifies this
      ensures Valid()
      ensures buffer == old(buffer) + [word]
    {
      buffer := buffer + [word];
    }

    /** Remove and return the front; the source waits while it is empty. */
    method Dequeue() returns (temp: Data)
      requires Valid() && |buffer| > 0
      modifies this
      ensures Valid()
      ensures temp == old(buffer)[0]
      ensures buffer == old(buffer)[1..]
      ensures old(buffer) == [temp] + buffer
    {
      temp := buffer[0];
      buffer := buffer[1..];
    }

    /** Whether no record is queued. */
    function IsEmpty(): (empty: bool)
      reads this
      ensures empty <==> buffer == []
    {
      |buffer| == 0
    }
  }

  /** First in, first out: any records that fit, enqueued on a fresh buffer
      and then dequeued until it is empty, come back in the order they went
      in. */
  method FifoOrder(xs: seq<Data>) returns (out: seq<Data>, emptyAfter: bool)
    requires |xs| <= MAX_SIZE
    ensures out == xs
    ensures emptyAfter
  {
    var b := new BoundedBuffer();
    for i := 0 to |xs|
      invariant b.Valid() && b.buffer == xs[..i]
    {
      b.Enqueue(xs[i]);
      assert xs[..i + 1] == xs[..i] + [xs[i]];
    }
    assert xs[..|xs|] == xs;
    out := [];
    while !b.IsEmpty()
      invariant b.Valid() && out + b.buffer == xs
      decreases |b.buffer|
    {
      var x := b.Dequeue();
      out := out + [x];
      ConcatAssoc(out[..|out| - 1], [x], b.buffer);
      assert out[..|out| - 1] + [x] == out;
    }
    emptyAfter := b.IsEmpty();
  }
}
