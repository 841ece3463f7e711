/** The input stream of an entry: a ring of buffers that behaves as one queue of bytes. */
module PkgInputs {
  import opened Bytes
  import opened SimpleBuffers
  import opened PkgHeaders
  import W = WritableSequences

  const CAPACITY: nat := 8

  /** The ring slot `i` steps after `pos`. */
  function Slot(pos: nat, i: nat): (r: nat)
    ensures r < CAPACITY
  {
    (pos + i) % CAPACITY
  }

  function NextPos(pos: nat): (r: nat)
    ensures r < CAPACITY
  {
    (pos + 1) % CAPACITY
  }

  lemma SlotNext(pos: nat, i: nat)
    ensures Slot(NextPos(pos), i) == Slot(pos, i + 1)
  {
  }

  lemma NextOfSlot(pos: nat, i: nat)
    ensures NextPos(Slot(pos, i)) == Slot(pos, i + 1)
  {
  }

  /** Every slot is reached going round the ring. */
  lemma StepsTo(pos: nat, i: nat) returns (steps: nat)
    requires pos < CAPACITY && i < CAPACITY
    ensures steps < CAPACITY && Slot(pos, steps) == i
  {
    steps := (i + CAPACITY - pos) % CAPACITY;
  }

  lemma SlotsDiffer(pos: nat, i: nat, j: nat)
    requires pos < CAPACITY && i < j < CAPACITY
    ensures Slot(pos, i) != Slot(pos, j)
  {
  }

  ghost function FirstNonEmpty(ws: seq<Buffer>): (k: nat)
    requires Flatten(ws) != []
    ensures k < |ws| && ws[k] != []
  {
    if ws[0] != [] then 0 else 1 + FirstNonEmpty(ws[1..])
  }

  class PkgInput {
    const bufs: array<SimpleBuffer>
    var totalSize: nat
    var buffersCount: nat
    var firstBufferPos: nat
    var firstBufferOffset: nat
    var firstBufferServed: bool
    var byteSizeCounter: int

    /** The contents of the queued buffers, first one first. */
    ghost var window: seq<Buffer>
    /** The ring array, its buffers and their memory. */
    ghost var Owned: set<object>

    ghost predicate Shape()
      reads this`Owned, this`firstBufferPos, this`buffersCount, Owned
    {
      && bufs in Owned && bufs.Length == CAPACITY
      && firstBufferPos < CAPACITY && buffersCount <= CAPACITY
      && (forall i :: 0 <= i < CAPACITY ==> bufs[i] in Owned && bufs[i].mem in Owned && bufs[i].Valid())
      && (forall i, j :: 0 <= i < j < buffersCount ==>
            && bufs[Slot(firstBufferPos, i)] != bufs[Slot(firstBufferPos, j)]
            && bufs[Slot(firstBufferPos, i)].mem != bufs[Slot(firstBufferPos, j)].mem)
    }

    /** The queued slots hold the window. */
    ghost predicate Holds()
      reads this`Owned, this`firstBufferPos, this`buffersCount, this`window, Owned
    {
      && Shape()
      && |window| == buffersCount
      && (forall i :: 0 <= i < buffersCount ==> bufs[Slot(firstBufferPos, i)].Contents() == window[i])
    }

    ghost predicate WindowOk()
      reads this, Owned
    {
      this !in Owned && Holds() && (firstBufferOffset > 0 ==> window != [] && firstBufferOffset < |window[0]|)
    }

    ghost predicate Valid()
      reads this, Owned
    {
      && WindowOk()
      && (firstBufferServed ==> window != [])
      && firstBufferOffset <= |Flatten(window)|
      && totalSize == |Flatten(window)| - firstBufferOffset
    }

    /** The bytes handed out by the last Next and not yet taken for good. */
    ghost function Lent(): (b: Buffer)
      reads this, Owned
      requires Valid()
    {
      if firstBufferServed then window[0][firstBufferOffset..] else []
    }

    /** The bytes not handed out. */
    ghost function Unread(): (b: Buffer)
      reads this, Owned
      requires Valid()
    {
      if firstBufferServed then Flatten(window[1..]) else Flatten(window)[firstBufferOffset..]
    }

    constructor ()
      ensures Valid() && fresh(Owned)
      ensures !firstBufferServed && Unread() == [] && byteSizeCounter == 0
    {
      var none := new SimpleBuffer([]);
      bufs := new SimpleBuffer[CAPACITY](_ => none);
      totalSize, buffersCount, firstBufferPos, firstBufferOffset := 0, 0, 0, 0;
      firstBufferServed, byteSizeCounter := false, 0;
      window := [];
      new;
      Owned := {bufs, none, none.mem};
    }

    function Size(): (n: nat)
      reads this, Owned
      requires Valid()
      ensures n == |Lent()| + |Unread()|
    {
      SizeIsLentAndUnread();
      totalSize
    }

    lemma SizeIsLentAndUnread()
      requires Valid()
      ensures totalSize == |Lent()| + |Unread()|
    {
    }

    function ByteCount(): (n: int)
      reads this
    {
      byteSizeCounter
    }

    // ---------- Helpers ----------

    method RemainedInTheFirstBuffer() returns (n: nat)
      requires WindowOk() && window != []
      ensures n == |window[0]| - firstBufferOffset
    {
      assert Slot(firstBufferPos, 0) == firstBufferPos;
      assert bufs[firstBufferPos].Contents() == window[0];
      n := bufs[firstBufferPos].size - firstBufferOffset;
    }

    method FirstData() returns (data: Buffer)
      requires WindowOk() && window != []
      ensures data == window[0][firstBufferOffset..]
    {
      var n := RemainedInTheFirstBuffer();
      assert Slot(firstBufferPos, 0) == firstBufferPos;
      var first := bufs[firstBufferPos];
      assert first.Contents() == window[0];
      data := first.mem[firstBufferOffset..firstBufferOffset + n];
    }

    /** Drops the first buffer, whatever is left of it. */
    method PopBuffer()
      requires WindowOk() && window != []
      modifies this`buffersCount, this`firstBufferPos, this`firstBufferOffset, this`window
      ensures WindowOk() && buffersCount < old(buffersCount) && window == old(window)[1..] && firstBufferOffset == 0
    {
      forall i | 0 <= i < buffersCount - 1
        ensures bufs[Slot(NextPos(firstBufferPos), i)] == bufs[Slot(firstBufferPos, i + 1)]
      {
        SlotNext(firstBufferPos, i);
      }
      buffersCount := buffersCount - 1;
      firstBufferPos := NextPos(firstBufferPos);
      firstBufferOffset := 0;
      window := window[1..];
    }

    /** What was handed out by Next and not taken back is gone for good. */
    method ResetFirstBufferServed()
      requires Valid()
      modifies this
      ensures Valid() && Owned == old(Owned) && byteSizeCounter == old(byteSizeCounter)
      ensures !firstBufferServed && Lent() == [] && Unread() == old(Unread())
      ensures |window| == old(|window| - if firstBufferServed then 1 else 0)
    {
      hide Holds, Shape;
      if firstBufferServed {
        var n := RemainedInTheFirstBuffer();
        totalSize := totalSize - n;
        PopBuffer();
        firstBufferServed := false;
        assert Flatten(window)[0..] == Flatten(window);
      }
    }

    // ---------- The zero-copy stream ----------

    method Next() returns (ok: bool, data: Buffer)
      requires Valid()
      modifies this
      ensures Valid() && Owned == old(Owned)
      ensures ok <==> old(Unread()) != []
      ensures data == Lent() && data + Unread() == old(Unread())
      ensures byteSizeCounter == old(byteSizeCounter) + |data|
      ensures ok <==> firstBufferServed
      ensures ok ==> |window| + (if firstBufferServed then 0 else 1) < old(|window| + if firstBufferServed then 0 else 1)
    {
      hide Holds, Shape;
      ResetFirstBufferServed();
      data := [];
      ok := false;
      if totalSize == 0 {
        return;
      }
      assert window != [];
      FirstAndRest(window, firstBufferOffset);
      data := FirstData();
      byteSizeCounter := byteSizeCounter + |data|;
      firstBufferServed := true;
      ok := true;
    }

    method BackUp(count: nat)
      requires Valid() && firstBufferServed && count <= |Lent()|
      modifies this
      ensures Valid() && Owned == old(Owned) && !firstBufferServed
      ensures Lent() == [] && Unread() == old(Lent())[old(|Lent()|) - count..] + old(Unread())
      ensures byteSizeCounter == old(byteSizeCounter) - count
    {
      hide Holds, Shape;
      BackedUp(window, firstBufferOffset, count);
      byteSizeCounter := byteSizeCounter - count;
      if 0 < count {
        KeepOfFirst(count);
      } else {
        DropFirst();
      }
    }

    /** The last `count` bytes of the first buffer stay. */
    method KeepOfFirst(count: nat)
      requires Valid() && window != [] && 0 < count <= |window[0]| - firstBufferOffset
      modifies this
      ensures Valid() && Owned == old(Owned) && !firstBufferServed && byteSizeCounter == old(byteSizeCounter)
      ensures window == old(window) && firstBufferOffset == |window[0]| - count
    {
      hide Holds, Shape;
      firstBufferServed := false;
      FirstAndRest(window, firstBufferOffset);
      var remained := RemainedInTheFirstBuffer();
      var consumedSize := remained - count;
      totalSize := totalSize - consumedSize;
      firstBufferOffset := firstBufferOffset + consumedSize;
    }

    method DropFirst()
      requires Valid() && window != []
      modifies this
      ensures Valid() && Owned == old(Owned) && !firstBufferServed && byteSizeCounter == old(byteSizeCounter)
      ensures window == old(window)[1..] && firstBufferOffset == 0
    {
      hide Holds, Shape;
      firstBufferServed := false;
      FirstAndRest(window, firstBufferOffset);
      var remained := RemainedInTheFirstBuffer();
      totalSize := totalSize - remained;
      PopBuffer();
    }

    method Skip(count: nat) returns (ok: bool)
      requires Valid()
      modifies this
      ensures Valid() && Owned == old(Owned) && !firstBufferServed
      ensures ok <==> count <= |old(Unread())|
      ensures Lent() == [] && Unread() == if ok then old(Unread())[count..] else old(Unread())
      ensures byteSizeCounter == old(byteSizeCounter) + count
    {
      hide Holds, Shape;
      ResetFirstBufferServed();
      byteSizeCounter := byteSizeCounter + count;
      if totalSize < count {
        return false;
      }
      SkipBytes(count);
      ok := true;
    }

    method SkipBytes(n: nat)
      requires Valid() && !firstBufferServed && n <= |Unread()|
      modifies this
      ensures Valid() && Owned == old(Owned) && !firstBufferServed && byteSizeCounter == old(byteSizeCounter)
      ensures Unread() == old(Unread())[n..]
      decreases |window|
    {
      hide Holds, Shape;
      if 0 == n {
        return;
      }
      SkipSplit(window, firstBufferOffset, n);
      var inFirst := RemainedInTheFirstBuffer();
      hide Flatten;
      if n < inFirst {
        firstBufferOffset := firstBufferOffset + n;
        totalSize := totalSize - n;
        return;
      }
      DropFirst();
      SkipBytes(n - inFirst);
    }

    // ---------- Input ----------

    /** Takes over `buf`. With all slots in use its bytes go behind those of the last one. */
    method Append(buf: SimpleBuffer)
      requires Valid() && !firstBufferServed
      requires buf.Valid() && buf !in Owned && buf.mem !in Owned
      modifies this, Owned
      ensures Valid() && fresh(Owned - old(Owned) - {buf, buf.mem}) && !firstBufferServed
      ensures Unread() == old(Unread()) + old(buf.Contents()) && byteSizeCounter == old(byteSizeCounter)
    {
      ghost var data := buf.Contents();
      ghost var was := window;
      assert |window| == buffersCount;
      hide Holds, Shape, Flatten;
      totalSize := totalSize + buf.size;
      if CAPACITY > buffersCount {
        AppendSlot(buf);
        FlattenSnoc(was, data);
      } else {
        ExtendLast(buf);
        FlattenExtended(was, data);
      }
      TailAppended(Flatten(was), data, firstBufferOffset);
    }

    method AppendSlot(buf: SimpleBuffer)
      requires Holds() && this !in Owned && buffersCount < CAPACITY
      requires buf.Valid() && buf !in Owned && buf.mem !in Owned
      modifies this`buffersCount, this`window, this`Owned, bufs
      ensures Holds() && this !in Owned && Owned == old(Owned) + {buf, buf.mem}
      ensures window == old(window) + [buf.Contents()]
    {
      var nextPos := Slot(firstBufferPos, buffersCount);
      forall i | 0 <= i < buffersCount
        ensures Slot(firstBufferPos, i) != nextPos
      {
        SlotsDiffer(firstBufferPos, i, buffersCount);
      }
      bufs[nextPos] := buf;
      buffersCount := buffersCount + 1;
      window := window + [buf.Contents()];
      Owned := Owned + {buf, buf.mem};
    }

    method ExtendLast(buf: SimpleBuffer)
      requires Holds() && this !in Owned && buffersCount == CAPACITY
      requires buf.Valid() && buf !in Owned && buf.mem !in Owned
      modifies this`window, this`Owned, Owned
      ensures Holds() && this !in Owned && fresh(Owned - old(Owned))
      ensures window == old(window)[CAPACITY - 1 := old(window)[CAPACITY - 1] + old(buf.Contents())]
    {
      var lastBuf := bufs[Slot(firstBufferPos, buffersCount - 1)];
      var data := buf.mem[..buf.size];
      lastBuf.Extend(data);
      window := window[CAPACITY - 1 := window[CAPACITY - 1] + data];
      Owned := Owned + {lastBuf.mem};
    }

    // ---------- Copying ----------

    /** From `pos` on (and offset `offset` there), `steps` slots ahead is the first slot
        that stops the copy once nothing is left to copy. */
    ghost predicate StopsAfter(pos: nat, offset: nat, steps: nat)
      reads this`firstBufferPos, this`buffersCount, this`Owned, Owned
      requires Shape()
    {
      && pos < CAPACITY && steps < CAPACITY && offset <= bufs[pos].size
      && bufs[Slot(pos, steps)].size > if steps == 0 then offset else 0
    }

    /** `pos` and `offset` are where the bytes `tail` of the window start. */
    ghost predicate StartsAt(pos: nat, offset: nat, i: nat, tail: Buffer)
      reads this`firstBufferPos, this`buffersCount, this`window, this`Owned, Owned
      requires Holds()
    {
      && i < buffersCount && pos == Slot(firstBufferPos, i)
      && offset <= |window[i]|
      && tail == window[i][offset..] + Flatten(window[i + 1..])
    }

    /** Copies `n` bytes, slot after slot. With none left to copy it still goes on to the
        next slot until it meets one that is not empty. */
    method CopyNBytesTo(dest: array<Byte>, at: nat, n: nat, pos: nat, offset: nat, ghost i: nat, ghost tail: Buffer, ghost steps: nat)
      requires Holds() && dest !in Owned && at + n <= dest.Length
      requires StopsAfter(pos, offset, steps)
      requires n > 0 ==> StartsAt(pos, offset, i, tail) && n <= |tail|
      modifies dest
      ensures n > 0 ==> dest[at..at + n] == tail[..n]
      ensures dest[..at] == old(dest[..at]) && dest[at + n..] == old(dest[at + n..])
      decreases n, steps
    {
      var remained := bufs[pos].size - offset;
      SlotIsTail(n, pos, offset, i, tail);
      hide StopsAfter, StartsAt, Slot, NextPos, Flatten;
      if n < remained {
        CopyFromSlot(dest, at, pos, offset, n);
        return;
      }
      ghost var d0 := dest[..];
      CopyFromSlot(dest, at, pos, offset, remained);
      ghost var d1 := dest[..];
      ghost var steps' := NextStop(n, pos, offset, i, tail, steps);
      CopyNBytesTo(dest, at + remained, n - remained, NextPos(pos), 0, i + 1, if n > 0 then tail[remained..] else [], steps');
      Assembled(d0, d1, dest[..], at, n, remained, tail);
    }

    method CopyFromSlot(dest: array<Byte>, at: nat, pos: nat, offset: nat, k: nat)
      requires Holds() && dest !in Owned && pos < CAPACITY
      requires offset + k <= bufs[pos].size && at + k <= dest.Length
      modifies dest
      ensures dest[at..at + k] == bufs[pos].Contents()[offset..offset + k]
      ensures dest[..at] == old(dest[..at]) && dest[at + k..] == old(dest[at + k..])
    {
      var src := bufs[pos].mem[offset..offset + k];
      assert src == bufs[pos].Contents()[offset..offset + k];
      W.Memcpy(dest, at, src);
      assert bufs[pos].Contents()[offset..offset + k] == src;
    }

    lemma SlotIsTail(n: nat, pos: nat, offset: nat, i: nat, tail: Buffer)
      requires Holds() && pos < CAPACITY && offset <= bufs[pos].size
      requires n > 0 ==> StartsAt(pos, offset, i, tail) && n <= |tail|
      ensures var here := bufs[pos].Contents();
              n > 0 ==>
                && |here| - offset <= |tail|
                && (forall k: nat | offset + k <= |here| :: here[offset..offset + k] == tail[..k])
    {
      if n > 0 {
        assert bufs[pos].Contents() == window[i];
        forall k: nat | offset + k <= |window[i]|
          ensures window[i][offset..offset + k] == tail[..k]
        {
          assert window[i][offset..offset + k] == window[i][offset..][..k];
        }
      }
    }

    /** Why the recursion ends: bytes have been copied, or a non-empty slot is nearer. */
    lemma NextStop(n: nat, pos: nat, offset: nat, i: nat, tail: Buffer, steps: nat) returns (steps': nat)
      requires Holds() && StopsAfter(pos, offset, steps)
      requires n > 0 ==> StartsAt(pos, offset, i, tail) && n <= |tail|
      requires n >= bufs[pos].size - offset
      ensures StopsAfter(NextPos(pos), 0, steps')
      ensures var remained := bufs[pos].size - offset;
              && (n > 0 ==> remained <= |tail|)
              && (n - remained > 0 ==> StartsAt(NextPos(pos), 0, i + 1, tail[remained..]))
              && (remained > 0 || steps' < steps)
    {
      if steps > 0 {
        steps' := steps - 1;
        SlotNext(pos, steps');
      } else {
        steps' := CAPACITY - 1;
        SlotNext(pos, steps');
      }
      NextStart(n, pos, offset, i, tail);
    }

    lemma NextStart(n: nat, pos: nat, offset: nat, i: nat, tail: Buffer)
      requires Holds() && pos < CAPACITY && offset <= bufs[pos].size <= n + offset
      requires n > 0 ==> StartsAt(pos, offset, i, tail) && n <= |tail|
      ensures var remained := bufs[pos].size - offset;
              && (n > 0 ==> remained <= |tail|)
              && (n - remained > 0 ==> StartsAt(NextPos(pos), 0, i + 1, tail[remained..]))
    {
      if n > 0 {
        assert bufs[pos].Contents() == window[i];
        NextOfSlot(firstBufferPos, i);
        BehindSlot(window, i, offset, tail);
        hide Slot, NextPos, Holds, Flatten;
      }
    }

    /** Some slot of the ring, queued or left over, holds bytes. */
    ghost predicate RingHoldsBytes()
      reads this`Owned, Owned
      requires bufs in Owned && bufs.Length == CAPACITY && forall i :: 0 <= i < CAPACITY ==> bufs[i] in Owned
    {
      exists i :: 0 <= i < CAPACITY && bufs[i].size > 0
    }

    /** Copies the first `n` unread bytes without taking them. Copying none returns only if
        there is a slot with bytes. */
    method CopyUnread(dest: array<Byte>, n: nat)
      requires Valid() && !firstBufferServed && dest !in Owned
      requires n == dest.Length <= |Unread()| && (n > 0 || RingHoldsBytes())
      modifies dest
      ensures Valid() && Unread() == old(Unread()) && dest[..] == Unread()[..n]
    {
      ghost var steps := StartOfCopy();
      CopyNBytesTo(dest, 0, n, firstBufferPos, firstBufferOffset, 0, Unread(), steps);
      assert dest[..] == dest[0..n];
    }

    lemma StartOfCopy() returns (steps: nat)
      requires Valid() && !firstBufferServed && (Unread() != [] || RingHoldsBytes())
      ensures StopsAfter(firstBufferPos, firstBufferOffset, steps)
      ensures Unread() != [] ==> StartsAt(firstBufferPos, firstBufferOffset, 0, Unread())
    {
      if Unread() == [] {
        assert firstBufferOffset == 0 by {
          if window != [] {
            FirstAndRest(window, firstBufferOffset);
          }
        }
        var i :| 0 <= i < CAPACITY && bufs[i].size > 0;
        steps := StepsTo(firstBufferPos, i);
        return;
      }
      FirstAndRest(window, firstBufferOffset);
      assert Slot(firstBufferPos, 0) == firstBufferPos;
      assert bufs[Slot(firstBufferPos, 0)].Contents() == window[0];
      if firstBufferOffset < |window[0]| {
        steps := 0;
      } else {
        steps := FirstNonEmpty(window);
        assert bufs[Slot(firstBufferPos, steps)].Contents() == window[steps];
      }
    }

    method ViewPkgHeader() returns (header: PkgHeader)
      requires Valid() && !firstBufferServed && HEADER_SIZE <= |Unread()|
      ensures Valid() && Unread() == old(Unread())
      ensures header == Decode(Unread())
    {
      hide Holds, Shape, Decode;
      var image := new Byte[HEADER_SIZE];
      CopyUnread(image, HEADER_SIZE);
      header := Decode(image[..]);
      assert Unread() == Unread()[..HEADER_SIZE] + Unread()[HEADER_SIZE..];
      DecodePrefix(Unread()[..HEADER_SIZE], Unread()[HEADER_SIZE..]);
    }

    method ReadBuffer(dest: array<Byte>, size: nat)
      requires Valid() && !firstBufferServed && dest !in Owned
      requires size == dest.Length <= |Unread()| && (size > 0 || RingHoldsBytes())
      modifies this, dest
      ensures Valid() && Owned == old(Owned) && !firstBufferServed && byteSizeCounter == old(byteSizeCounter)
      ensures dest[..] == old(Unread())[..size] && Unread() == old(Unread())[size..]
    {
      hide Holds, Shape;
      CopyUnread(dest, size);
      SkipBytes(size);
    }
  }

  // ---------- When a copy ends ----------

  /** Does the copy of `n` bytes from `offset` in slot `pos` return within `calls` further
      calls? The sizes are those of all ring slots, queued or left over. */
  predicate CopyReturns(sizes: seq<nat>, pos: nat, offset: nat, n: nat, calls: nat)
    requires |sizes| == CAPACITY && pos < CAPACITY && offset <= sizes[pos]
    decreases calls
  {
    var remained := sizes[pos] - offset;
    n < remained || (calls > 0 && CopyReturns(sizes, NextPos(pos), 0, n - remained, calls - 1))
  }

  predicate ReturnsWithin(sizes: seq<nat>, pos: nat, offset: nat, n: nat, calls: nat)
    requires |sizes| == CAPACITY && pos < CAPACITY && offset <= sizes[pos]
  {
    CopyReturns(sizes, pos, offset, n, calls)
  }

  predicate SomeBytes(sizes: seq<nat>)
  {
    exists i :: 0 <= i < |sizes| && sizes[i] > 0
  }

  lemma {:induction false} EmptyRingNeverReturns(sizes: seq<nat>, pos: nat, n: nat, calls: nat)
    requires |sizes| == CAPACITY && pos < CAPACITY && forall i :: 0 <= i < CAPACITY ==> sizes[i] == 0
    ensures !CopyReturns(sizes, pos, 0, n, calls)
    decreases calls
  {
    if calls > 0 {
      EmptyRingNeverReturns(sizes, NextPos(pos), n, calls - 1);
    }
  }

  /** `steps` slots ahead there are bytes: the copy gets there, and each time round it has
      fewer bytes left to copy. */
  lemma {:induction false} CopyCallsNeeded(sizes: seq<nat>, pos: nat, offset: nat, n: nat, steps: nat) returns (calls: nat)
    requires |sizes| == CAPACITY && pos < CAPACITY && offset <= sizes[pos]
    requires steps < CAPACITY && sizes[Slot(pos, steps)] > if steps == 0 then offset else 0
    ensures CopyReturns(sizes, pos, offset, n, calls)
    decreases n, steps
  {
    var remained := sizes[pos] - offset;
    if n < remained {
      calls := 0;
    } else {
      var steps' := if steps > 0 then steps - 1 else CAPACITY - 1;
      SlotNext(pos, steps');
      calls := CopyCallsNeeded(sizes, NextPos(pos), 0, n - remained, steps');
      calls := calls + 1;
    }
  }

  /** A copy from an offset within its first slot returns if and only if some slot of the
      ring is not empty; how many bytes are asked for does not matter. In particular a copy
      of no bytes from a ring of empty buffers never returns. */
  lemma CopyEndsExactlyWhen(sizes: seq<nat>, pos: nat, offset: nat, n: nat)
    requires |sizes| == CAPACITY && pos < CAPACITY && (offset == 0 || offset < sizes[pos])
    ensures (exists calls: nat :: ReturnsWithin(sizes, pos, offset, n, calls)) <==> SomeBytes(sizes)
  {
    if SomeBytes(sizes) {
      var i :| 0 <= i < CAPACITY && sizes[i] > 0;
      var steps := if sizes[pos] > offset then 0 else (i + CAPACITY - pos) % CAPACITY;
      assert Slot(pos, steps) == if steps == 0 then pos else i;
      var calls := CopyCallsNeeded(sizes, pos, offset, n, steps);
      assert ReturnsWithin(sizes, pos, offset, n, calls);
    } else {
      assert forall i :: 0 <= i < CAPACITY ==> sizes[i] == 0;
      forall calls: nat
        ensures !ReturnsWithin(sizes, pos, offset, n, calls)
      {
        EmptyRingNeverReturns(sizes, pos, n, calls);
      }
    }
  }

  /** A copied front part and the copied rest make up the whole. */
  lemma Assembled(d0: Buffer, d1: Buffer, d2: Buffer, at: nat, n: nat, k: nat, tail: Buffer)
    requires at + n <= |d0| == |d1| == |d2| && k <= n
    requires d1[..at] == d0[..at] && d1[at + k..] == d0[at + k..]
    requires d2[..at + k] == d1[..at + k] && d2[at + n..] == d1[at + n..]
    requires n > 0 ==> n <= |tail| && d1[at..at + k] == tail[..k]
    requires n - k > 0 ==> d2[at + k..at + n] == tail[k..][..n - k]
    ensures n > 0 ==> d2[at..at + n] == tail[..n]
    ensures d2[..at] == d0[..at] && d2[at + n..] == d0[at + n..]
  {
    assert d2[..at] == d2[..at + k][..at] == d1[..at + k][..at];
    assert d1[at + n..] == d1[at + k..][n - k..] == d0[at + k..][n - k..];
    if n > 0 {
      assert d2[at..at + n] == d2[..at + k][at..] + d2[at + k..at + n];
      assert d1[..at + k][at..] == d1[at..at + k];
      assert tail[..n] == tail[..k] + tail[k..n];
    }
  }

  lemma FlattenExtended(ws: seq<Buffer>, data: Buffer)
    requires ws != []
    ensures Flatten(ws[|ws| - 1 := ws[|ws| - 1] + data]) == Flatten(ws) + data
  {
    var n := |ws| - 1;
    assert ws == ws[..n] + [ws[n]] && ws[n := ws[n] + data] == ws[..n] + [ws[n] + data];
    FlattenSnoc(ws[..n], ws[n]);
    FlattenSnoc(ws[..n], ws[n] + data);
  }

  /** What is left of the stream when the last `count` bytes lent come back. */
  lemma BackedUp(ws: seq<Buffer>, offset: nat, count: nat)
    requires ws != [] && offset <= |ws[0]| && count <= |ws[0]| - offset
    ensures var back := ws[0][offset..][|ws[0]| - offset - count..];
            && |ws[0]| - count <= |Flatten(ws)| == |ws[0]| + |Flatten(ws[1..])|
            && Flatten(ws)[|ws[0]| - count..] == back + Flatten(ws[1..])
            && (count == 0 ==> Flatten(ws[1..])[0..] == back + Flatten(ws[1..]))
  {
    FirstAndRest(ws, |ws[0]| - count);
    assert ws[0][offset..][|ws[0]| - offset - count..] == ws[0][|ws[0]| - count..];
  }

  lemma TailAppended(all: Buffer, data: Buffer, offset: nat)
    requires offset <= |all|
    ensures (all + data)[offset..] == all[offset..] + data
  {
  }

  /** Skipping ends within the first buffer, or goes on behind it. */
  lemma SkipSplit(ws: seq<Buffer>, offset: nat, n: nat)
    requires ws != [] && offset <= |ws[0]| && n <= |Flatten(ws)[offset..]|
    ensures offset <= |Flatten(ws)|
    ensures var inFirst := |ws[0]| - offset;
            if n < inFirst then offset + n <= |Flatten(ws)| && Flatten(ws)[offset..][n..] == Flatten(ws)[offset + n..]
            else Flatten(ws)[offset..][n..] == Flatten(ws[1..])[0..][n - inFirst..] && n - inFirst <= |Flatten(ws[1..])|
  {
    FirstAndRest(ws, offset);
  }

  /** What is left of a tail that starts in window `i` once that window is done with. */
  lemma BehindSlot(ws: seq<Buffer>, i: nat, offset: nat, tail: Buffer)
    requires i < |ws| && offset <= |ws[i]| && tail == ws[i][offset..] + Flatten(ws[i + 1..])
    ensures var rest := tail[|ws[i]| - offset..];
            && rest == Flatten(ws[i + 1..])
            && (rest != [] ==> i + 1 < |ws| && rest == ws[i + 1][0..] + Flatten(ws[i + 2..]))
  {
    if i + 1 < |ws| {
      assert ws[i + 1..][1..] == ws[i + 2..];
    }
  }

  lemma FirstAndRest(ws: seq<Buffer>, offset: nat)
    requires ws != [] && offset <= |ws[0]|
    ensures offset <= |Flatten(ws)|
    ensures Flatten(ws)[offset..] == ws[0][offset..] + Flatten(ws[1..])
  {
  }
}
