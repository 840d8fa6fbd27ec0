/** The two bounded queues of the pipeline, on their arrays: a reader's ring of block numbers and the
    event collector. */
module Rings {
  import opened Arith
  import Dispatcher

  const RING: nat := Dispatcher.RING
  const BLOCK_SAMPLES: nat := Dispatcher.BLOCK_SAMPLES

  /** The slots at, at+1, ... (n of them) of a circular buffer. */
  function Circular<T>(buf: seq<T>, at: nat, n: nat): (c: seq<T>)
    requires at < |buf| && n <= |buf|
    ensures |c| == n
    ensures forall k :: 0 <= k < n ==> c[k] == buf[Wrap(at + k, |buf|)]
  {
    seq(n, k requires 0 <= k < n => buf[Wrap(at + k, |buf|)])
  }

  function Wrap(i: nat, n: nat): (w: nat)
    requires 0 < n && i < 2 * n
    ensures w < n
  {
    if i < n then i else i - n
  }

  lemma ModIsWrap(i: nat, n: nat)
    requires 0 < n && i < 2 * n
    ensures i % n == Wrap(i, n)
  {
    if i < n {
      DivUnique(i, n, 0, i);
    } else {
      DivUnique(i, n, 1, i - n);
    }
  }

  /** Writing behind the last live slot appends; the other slots keep their order. */
  lemma CircularAppend<T>(buf: seq<T>, at: nat, n: nat, x: T)
    requires at < |buf| && n < |buf|
    ensures Circular(buf[Wrap(at + n, |buf|) := x], at, n + 1) == Circular(buf, at, n) + [x]
  {
  }

  lemma CircularNext<T>(buf: seq<T>, at: nat, n: nat)
    requires at < |buf| && n < |buf|
    ensures Circular(buf, at, n + 1) == Circular(buf, at, n) + [buf[Wrap(at + n, |buf|)]]
  {
  }

  /** Going round once meets every slot. */
  lemma CircularCovers<T>(buf: seq<T>, at: nat, x: T)
    requires at < |buf| && x in buf
    ensures x in Circular(buf, at, |buf|)
  {
    var i: nat :| i < |buf| && buf[i] == x;
    var k: nat := if i < at then i + |buf| - at else i - at;
    assert Circular(buf, at, |buf|)[k] == x;
  }

  /** Moving the read index on by one drops the oldest. */
  lemma CircularDrop<T>(buf: seq<T>, at: nat, n: nat)
    requires at < |buf| && 0 < n <= |buf|
    ensures Circular(buf, Wrap(at + 1, |buf|), n - 1) == Circular(buf, at, n)[1..]
  {
  }

  /** The last n elements followed by x are the last n + 1 of the longer sequence. */
  lemma SuffixGrows<T>(s: seq<T>, n: nat, x: T)
    requires n <= |s|
    ensures (s + [x])[|s| - n..] == s[|s| - n..] + [x]
    ensures (s + [x])[..|s| - n] == s[..|s| - n]
  {
  }

  /** ... and without its first element the last n are the last n - 1. */
  lemma SuffixShrinks<T>(s: seq<T>, n: nat)
    requires 0 < n <= |s|
    ensures s[|s| - n..][1..] == s[|s| - (n - 1)..] && s[|s| - n..][0] == s[|s| - n]
    ensures s[..|s| - (n - 1)] == s[..|s| - n] + [s[|s| - n]]
  {
  }

  lemma CircularFront<T>(buf: seq<T>, at: nat, n: nat)
    requires at < |buf| && 0 < n <= |buf|
    ensures Circular(buf, at, n)[0] == buf[at]
  {
  }

  /** The index behind the newest moves on by one. */
  lemma WrapNext(at: nat, n: nat, size: nat)
    requires at < size && n < size
    ensures Wrap(Wrap(at + n, size) + 1, size) == Wrap(at + (n + 1), size)
  {
  }

  /** The index behind the newest stays where it is when the oldest goes. */
  lemma WrapShift(at: nat, n: nat, size: nat)
    requires at < size && 0 < n <= size
    ensures Wrap(Wrap(at + 1, size) + (n - 1), size) == Wrap(at + n, size)
  {
  }

  /** A reader's ring. */
  class ReaderRing {
    const ring: array<nat>
    var writeIdx: nat
    var readIdx: nat
    var count: nat

    ghost predicate Valid()
      reads this, ring
    {
      && ring.Length == RING && readIdx < RING && count <= RING
      && writeIdx == Wrap(readIdx + count, RING)
    }

    ghost function Contents(): (c: seq<nat>)
      requires Valid()
      reads this, ring
    {
      Circular(ring[..], readIdx, count)
    }

    constructor ()
      ensures Valid() && Contents() == [] && fresh(ring)
    {
      ring := new nat[RING](_ => 0);
      writeIdx, readIdx, count := 0, 0, 0;
    }

    /** Append a block unless the ring is full. */
    method TryPush(block: nat) returns (ok: bool)
      requires Valid()
      modifies this`writeIdx, this`count, ring
      ensures Valid()
      ensures ok == (|old(Contents())| < RING)
      ensures Contents() == if ok then old(Contents()) + [block] else old(Contents())
    {
      if count == RING {
        return false;
      }
      CircularAppend(ring[..], readIdx, count, block);
      ghost var was := ring[..];
      ring[writeIdx] := block;
      assert ring[..] == was[writeIdx := block];
      writeIdx := (writeIdx + 1) % RING;
      count := count + 1;
      return true;
    }

    /** Take the oldest block of a non-empty ring. */
    method Pop() returns (block: nat)
      requires Valid() && Contents() != []
      modifies this`readIdx, this`count
      ensures Valid() && old(Contents()) == [block] + Contents()
    {
      CircularDrop(ring[..], readIdx, count);
      block := ring[readIdx];
      readIdx := (readIdx + 1) % RING;
      count := count - 1;
    }
  }

  /** The block pool: one reference count per block and where the next search starts. */
  class Pool {
    const refs: array<nat>
    var next: nat

    ghost predicate Valid()
      reads this
    {
      next < refs.Length
    }

    constructor (n: nat)
      requires n > 0
      ensures Valid() && fresh(refs) && refs[..] == seq(n, _ => 0) && next == 0
    {
      refs := new nat[n](_ => 0);
      next := 0;
    }

    /** Take the first free block at or after `next`, going round once: the `tried` blocks before it are
        all in use, it fails exactly when no block is free, and it touches no other count. */
    method Acquire() returns (ok: bool, block: nat, ghost tried: nat)
      requires Valid()
      modifies this`next, refs
      ensures Valid()
      ensures ok <==> 0 in old(refs[..])
      ensures !ok ==> refs[..] == old(refs[..]) && next == old(next)
      ensures ok ==> tried < refs.Length && block == Wrap(old(next) + tried, refs.Length)
      ensures ok ==> 0 !in Circular(old(refs[..]), old(next), tried) && old(refs[block]) == 0
      ensures ok ==> refs[..] == old(refs[..])[block := 1] && next == Wrap(block + 1, refs.Length)
    {
      var n := refs.Length;
      var i := 0;
      while i < n
        invariant 0 <= i <= n && next == old(next) && refs[..] == old(refs[..])
        invariant 0 !in Circular(refs[..], next, i)
      {
        ModIsWrap(next + i, n);
        var idx := (next + i) % n;
        CircularNext(refs[..], next, i);
        if refs[idx] == 0 {
          ModIsWrap(idx + 1, n);
          refs[idx] := 1;
          next := (idx + 1) % n;
          return true, idx, i;
        }
        i := i + 1;
      }
      if 0 in refs[..] {
        CircularCovers(refs[..], next, 0);
      }
      return false, 0, 0;
    }
  }

  /** The event collector: overwrite-oldest, or refusing while full when producers must wait. */
  class Collector<T(0)> {
    const buf: array<T>
    var head: nat
    var tail: nat
    var count: nat
    var dropped: nat
    var blocking: bool
    ghost var submitted: seq<T>   // every event accepted, in order
    ghost var popped: seq<T>      // every event handed out, in order

    ghost predicate Valid()
      reads this, buf
    {
      && 0 < buf.Length && tail < buf.Length && count <= buf.Length
      && head == Wrap(tail + count, buf.Length)
      && |popped| + dropped + count == |submitted|
      && Contents() == submitted[|submitted| - count..]
      && (dropped == 0 ==> popped == submitted[..|submitted| - count])
    }

    ghost function Contents(): (c: seq<T>)
      requires tail < buf.Length && count <= buf.Length
      reads this, buf
    {
      Circular(buf[..], tail, count)
    }

    constructor (capacity: nat)
      requires capacity > 0
      ensures Valid() && fresh(buf) && buf.Length == capacity
      ensures submitted == [] && popped == [] && dropped == 0 && !blocking
    {
      buf := new T[capacity];
      head, tail, count, dropped, blocking := 0, 0, 0, 0, false;
      submitted, popped := [], [];
    }

    /** Overwrite-oldest: give up the oldest event of a full queue. */
    method DropOldest()
      requires Valid() && count == buf.Length
      modifies this`tail, this`count, this`dropped
      ensures Valid() && count == buf.Length - 1 && dropped == old(dropped) + 1
    {
      CircularDrop(buf[..], tail, count);
      ModIsWrap(tail + 1, buf.Length);
      hide Circular;
      tail := (tail + 1) % buf.Length;
      count := count - 1;
      dropped := dropped + 1;
    }

    /** Write one event behind the newest. */
    method Append(item: T)
      requires Valid() && count < buf.Length
      modifies this`head, this`count, this`submitted, buf
      ensures Valid() && count == old(count) + 1
      ensures submitted == old(submitted) + [item]
    {
      CircularAppend(buf[..], tail, count, item);
      ModIsWrap(head + 1, buf.Length);
      SuffixGrows(submitted, count, item);
      WrapNext(tail, count, buf.Length);
      hide Circular, Wrap;
      ghost var was := buf[..];
      buf[head] := item;
      assert buf[..] == was[head := item];
      head := (head + 1) % buf.Length;
      count := count + 1;
      submitted := submitted + [item];
    }

    /** Submit an event; `accepted` is false only in blocking mode on a full queue, where the producer
        has to wait and nothing changes. */
    method Submit(item: T) returns (accepted: bool)
      requires Valid()
      modifies this`head, this`tail, this`count, this`dropped, this`submitted, buf
      ensures Valid()
      ensures accepted == !(blocking && old(count) == buf.Length)
      ensures accepted ==> submitted == old(submitted) + [item]
      ensures !accepted ==> submitted == old(submitted) && Contents() == old(Contents())
      ensures dropped == old(dropped) + (if !blocking && old(count) == buf.Length then 1 else 0)
      ensures accepted ==> count == if old(count) == buf.Length then buf.Length else old(count) + 1
    {
      hide Circular;
      if blocking {
        if count == buf.Length {
          return false;
        }
      } else if count == buf.Length {
        DropOldest();
      }
      Append(item);
      return true;
    }

    /** Take the oldest event of a non-empty queue. */
    method Pop() returns (item: T)
      requires Valid() && count > 0
      modifies this`tail, this`count, this`popped
      ensures Valid() && count == old(count) - 1
      ensures item == submitted[|submitted| - old(count)]
      ensures popped == old(popped) + [item]
    {
      CircularDrop(buf[..], tail, count);
      CircularFront(buf[..], tail, count);
      SuffixShrinks(submitted, count);
      ModIsWrap(tail + 1, buf.Length);
      WrapShift(tail, count, buf.Length);
      hide Circular, Wrap;
      item := buf[tail];
      tail := (tail + 1) % buf.Length;
      count := count - 1;
      popped := popped + [item];
    }
  }


  /** Whole frames of m elements in a block. */
  function BlockFrames(m: nat): nat
    requires m > 0
  {
    BLOCK_SAMPLES / m
  }

  /** Scratch entries of a view over frames of m elements that reads every stride-th frame. */
  function ViewCap(m: nat, stride: nat): (cap: nat)
    requires m > 0 && stride > 0
  {
    BlockFrames(m) / stride + 16
  }

  /** n frames taken stride apart fit the scratch with 16 to spare as long as they fit a block. */
  lemma ViewCapFits(m: nat, stride: nat, n: nat)
    requires m > 0 && stride > 0 && n * stride <= BlockFrames(m)
    ensures n <= ViewCap(m, stride) - 16
  {
    hide BlockFrames;
    FitsIffBelow(BlockFrames(m), stride, n);
  }

  /** Element `bin` of frame k lies inside a block of `samples` elements. */
  lemma FrameInside(samples: nat, m: nat, bin: nat, k: nat)
    requires bin < m && k < samples / m
    ensures bin + k * m < samples
  {
    DivBounds(samples, m);
    MulMono(m, k + 1, samples / m);
  }

  lemma FramesFit(samples: nat, m: nat)
    requires samples <= BLOCK_SAMPLES && m > 0
    ensures samples / m <= BlockFrames(m)
  {
    DivBounds(samples, m);
    FitsIffBelow(BLOCK_SAMPLES, m, samples / m);
  }

  /** Gather one channel's stream from a frame-major block: element `bin` of frames 0, stride, 2*stride,
      ... up to the last whole frame.  The scratch bound never cuts the stream short. */
  method Gather<T>(samples: seq<T>, bin: nat, m: nat, stride: nat, cap: nat) returns (out: seq<T>)
    requires |samples| <= BLOCK_SAMPLES && bin < m && stride > 0 && cap == ViewCap(m, stride)
    ensures |out| * stride >= |samples| / m
    ensures out != [] ==> (|out| - 1) * stride < |samples| / m
    ensures forall j :: 0 <= j < |out| ==>
              0 <= bin + j * stride * m < |samples| && samples[bin + j * stride * m] == out[j]
  {
    var frames := |samples| / m;
    FramesFit(|samples|, m);
    out := [];
    var k := 0;
    while k < frames && |out| < cap
      invariant k == |out| * stride
      invariant out != [] ==> (|out| - 1) * stride < frames
      invariant forall j :: 0 <= j < |out| ==> At(samples, bin, m, j * stride, out[j])
    {
      FrameInside(|samples|, m, bin, k);
      assert At(samples, bin, m, |out| * stride, samples[bin + k * m]);
      out := out + [samples[bin + k * m]];
      k := k + stride;
    }
    if k < frames {
      ViewCapFits(m, stride, |out|);
    }
    GatheredAt(samples, bin, m, stride, out);
  }

  lemma GatheredAt<T>(samples: seq<T>, bin: nat, m: nat, stride: nat, out: seq<T>)
    requires forall j :: 0 <= j < |out| ==> At(samples, bin, m, j * stride, out[j])
    ensures forall j :: 0 <= j < |out| ==>
              0 <= bin + j * stride * m < |samples| && samples[bin + j * stride * m] == out[j]
  {
    forall j | 0 <= j < |out|
      ensures 0 <= bin + j * stride * m < |samples| && samples[bin + j * stride * m] == out[j]
    {
      assert At(samples, bin, m, j * stride, out[j]);
    }
  }

  /** x is element `bin` of frame k. */
  ghost predicate At<T>(samples: seq<T>, bin: nat, m: nat, k: int, x: T) {
    0 <= bin + k * m < |samples| && samples[bin + k * m] == x
  }
}
