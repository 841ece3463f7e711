/** One item of the write queue: the buffers of a single gather write, the descriptors the
    operating system reads them through, and the callbacks to run when they are out. */
module WritableSequences {
  import opened Bytes
  import Compaction

  const MAX_SEQ_LENGTH: nat := 16
  const CONCATENATED_BUFFER_MAX_SIZE: nat := 16 * 1024

  /** A pointer to `size` bytes at `offset` of the buffer in a storage slot. Reading it
      reads whatever the slot holds by then. */
  datatype Descriptor = Descriptor(slot: nat, offset: nat, size: nat)

  /** `count` adjacent descriptors, starting at `first`. */
  datatype Span = Span(first: nat, count: nat)

  predicate InRange(d: Descriptor, bufs: seq<Buffer>)
  {
    d.slot < |bufs| && d.offset + d.size <= |bufs[d.slot]|
  }

  predicate AllInRange(ds: seq<Descriptor>, bufs: seq<Buffer>)
  {
    forall d <- ds :: InRange(d, bufs)
  }

  function Read(d: Descriptor, bufs: seq<Buffer>): Buffer
    requires InRange(d, bufs)
  {
    bufs[d.slot][d.offset..d.offset + d.size]
  }

  /** The bytes behind a list of descriptors, in order. */
  function Pointed(ds: seq<Descriptor>, bufs: seq<Buffer>): Buffer
    requires AllInRange(ds, bufs)
  {
    if ds == [] then [] else Read(ds[0], bufs) + Pointed(ds[1..], bufs)
  }

  /** Descriptors that show every buffer from slot `k` on in full. */
  ghost predicate ShowsFrom(ds: seq<Descriptor>, bufs: seq<Buffer>, k: nat)
  {
    k + |ds| == |bufs| && forall i :: 0 <= i < |ds| ==> ds[i] == Descriptor(k + i, 0, |bufs[k + i]|)
  }

  lemma {:induction false} PointedAll(ds: seq<Descriptor>, bufs: seq<Buffer>, k: nat)
    requires ShowsFrom(ds, bufs, k)
    ensures Pointed(ds, bufs) == Flatten(bufs[k..])
    decreases |ds|
  {
    if ds != [] {
      PointedAll(ds[1..], bufs, k + 1);
      assert bufs[k..][1..] == bufs[k + 1..];
      assert Read(ds[0], bufs) == bufs[k];
    }
  }

  method Memcpy(dest: array<Byte>, at: nat, src: Buffer)
    requires at + |src| <= dest.Length
    modifies dest
    ensures dest[..at] == old(dest[..at])
    ensures dest[at..at + |src|] == src
    ensures dest[at + |src|..] == old(dest[at + |src|..])
  {
    for i := 0 to |src|
      invariant dest[..at] == old(dest[..at])
      invariant dest[at..at + i] == src[..i]
      invariant dest[at + |src|..] == old(dest[at + |src|..])
    {
      dest[at + i] := src[i];
    }
  }

  /** The bytes still to write once the first `transferred` are gone: a shorter span whose
      first descriptor may be cut at the front. */
  method SkipTransferredPart(descs: array<Descriptor>, span: Span, transferred: nat, ghost bufs: seq<Buffer>)
    returns (res: Span)
    requires span.first + span.count <= descs.Length
    requires AllInRange(descs[span.first..span.first + span.count], bufs)
    requires transferred < |Pointed(descs[span.first..span.first + span.count], bufs)|
    modifies descs
    ensures res.count > 0 && res.first + res.count == span.first + span.count
    ensures AllInRange(descs[res.first..res.first + res.count], bufs)
    ensures Pointed(descs[res.first..res.first + res.count], bufs)
         == old(Pointed(descs[span.first..span.first + span.count], bufs))[transferred..]
  {
    var end := span.first + span.count;
    ghost var ds := descs[..];
    ghost var whole := Pointed(ds[span.first..end], bufs);
    var left: nat := transferred;
    var keep := span.first;
    while descs[keep].size <= left
      invariant span.first <= keep < end
      invariant descs[..] == ds
      invariant AllInRange(ds[keep..end], bufs)
      invariant left <= transferred < |whole|
      invariant Pointed(ds[keep..end], bufs) == whole[transferred - left..]
      decreases end - keep
    {
      SkipOne(ds, keep, end, bufs, whole, transferred - left);
      left := left - descs[keep].size;
      keep := keep + 1;
    }
    res := Span(keep, end - keep);
    var d := descs[keep];
    CutOne(ds, keep, end, bufs, whole, transferred - left, left);
    descs[keep] := Descriptor(d.slot, d.offset + left, d.size - left);
    assert descs[keep..end] == [Cut(d, left)] + ds[keep + 1..end];
  }

  /** Dropping a whole descriptor drops its bytes. */
  lemma SkipOne(ds: seq<Descriptor>, keep: nat, end: nat, bufs: seq<Buffer>, whole: Buffer, done: nat)
    requires keep < end <= |ds| && AllInRange(ds[keep..end], bufs)
    requires done <= |whole| && Pointed(ds[keep..end], bufs) == whole[done..]
    ensures AllInRange(ds[keep + 1..end], bufs)
    ensures var done' := done + ds[keep].size;
            done' <= |whole| && Pointed(ds[keep + 1..end], bufs) == whole[done'..] && (done' < |whole| ==> keep + 1 < end)
  {
    PointedHead(ds[keep..end], bufs);
    assert ds[keep..end][1..] == ds[keep + 1..end];
    DropTwice(whole, done, ds[keep].size);
  }

  /** Cutting a descriptor drops the bytes cut off. */
  lemma CutOne(ds: seq<Descriptor>, keep: nat, end: nat, bufs: seq<Buffer>, whole: Buffer, done: nat, n: nat)
    requires keep < end <= |ds| && AllInRange(ds[keep..end], bufs) && n <= ds[keep].size
    requires done <= |whole| && Pointed(ds[keep..end], bufs) == whole[done..]
    ensures var ds' := [Cut(ds[keep], n)] + ds[keep + 1..end];
            AllInRange(ds', bufs) && done + n <= |whole| && Pointed(ds', bufs) == whole[done + n..]
  {
    PointedCut(ds[keep..end], bufs, n);
    assert ds[keep..end][1..] == ds[keep + 1..end];
    DropTwice(whole, done, n);
  }

  lemma DropTwice(s: Buffer, a: nat, b: nat)
    requires a + b <= |s|
    ensures s[a..][b..] == s[a + b..]
  {
  }

  function Cut(d: Descriptor, n: nat): Descriptor
    requires n <= d.size
  {
    Descriptor(d.slot, d.offset + n, d.size - n)
  }

  /** The first descriptor shows the first bytes, the others what follows. */
  lemma PointedHead(ds: seq<Descriptor>, bufs: seq<Buffer>)
    requires ds != [] && AllInRange(ds, bufs)
    ensures InRange(ds[0], bufs) && AllInRange(ds[1..], bufs)
    ensures Pointed(ds, bufs) == Read(ds[0], bufs) + Pointed(ds[1..], bufs)
    ensures Pointed(ds, bufs)[ds[0].size..] == Pointed(ds[1..], bufs)
  {
    assert ds[0] in ds;
  }

  /** Cutting `n` bytes off the first descriptor cuts them off the bytes behind the list. */
  lemma PointedCut(ds: seq<Descriptor>, bufs: seq<Buffer>, n: nat)
    requires ds != [] && AllInRange(ds, bufs) && n <= ds[0].size
    ensures var ds' := [Cut(ds[0], n)] + ds[1..];
            && AllInRange(ds', bufs)
            && n <= |Pointed(ds, bufs)|
            && Pointed(ds', bufs) == Pointed(ds, bufs)[n..]
  {
    PointedHead(ds, bufs);
    var cut := Cut(ds[0], n);
    var ds' := [cut] + ds[1..];
    assert ds'[1..] == ds[1..];
    assert Read(cut, bufs) == Read(ds[0], bufs)[n..];
  }

  /** Appending one finished group to the results so far leaves less to compact. */
  lemma GroupDone(was: seq<Buffer>, first: nat, last: nat, done: seq<Buffer>)
    requires first < last <= |was|
    requires last - first == Compaction.FirstGroup(was[first..], CONCATENATED_BUFFER_MAX_SIZE)
    ensures done + Compaction.Compact(was[first..], CONCATENATED_BUFFER_MAX_SIZE)
         == done + [Flatten(was[first..last])] + Compaction.Compact(was[last..], CONCATENATED_BUFFER_MAX_SIZE)
  {
    assert was[first..][..last - first] == was[first..last];
    assert was[first..][last - first..] == was[last..];
  }

  lemma OneMoreSlot(was: seq<Buffer>, first: nat, i: nat, last: nat)
    requires first <= i < last <= |was|
    ensures Flatten(was[first..i + 1]) == Flatten(was[first..i]) + was[i]
    ensures |Flatten(was[first..i + 1])| <= |Flatten(was[first..last])|
  {
    FlattenSnoc(was[first..i], was[i]);
    assert was[first..i] + [was[i]] == was[first..i + 1];
    FlattenSplit(was[first..last], i + 1 - first);
    assert was[first..last][..i + 1 - first] == was[first..i + 1];
  }

  class WritableSequence {
    var bufs: seq<Buffer>
    const asioBufs: array<Descriptor>
    var cbs: seq<nat>

    ghost predicate Valid()
      reads this
    {
      asioBufs.Length == MAX_SEQ_LENGTH && |bufs| <= MAX_SEQ_LENGTH
    }

    constructor ()
      ensures Valid() && bufs == [] && cbs == []
      ensures fresh(asioBufs)
    {
      bufs, cbs := [], [];
      asioBufs := new Descriptor[MAX_SEQ_LENGTH](_ => Descriptor(0, 0, 0));
    }

    predicate CanAppendBuffer()
      reads this
    {
      |bufs| + 1 <= MAX_SEQ_LENGTH
    }

    method AppendBuffer(buf: Buffer)
      requires Valid() && CanAppendBuffer()
      modifies this`bufs
      ensures Valid() && bufs == old(bufs) + [buf]
    {
      bufs := bufs + [buf];
    }

    method AppendCompletionCb(cb: nat)
      requires Valid()
      modifies this`cbs
      ensures Valid() && cbs == old(cbs) + [cb]
    {
      cbs := cbs + [cb];
    }

    /** Points the descriptors at the buffers, and sums up their sizes. */
    method AsioBufs() returns (span: Span, total: nat)
      requires Valid()
      modifies asioBufs
      ensures Valid()
      ensures span == Span(0, |bufs|) && total == |Flatten(bufs)|
      ensures ShowsFrom(asioBufs[..|bufs|], bufs, 0)
      ensures Pointed(asioBufs[..|bufs|], bufs) == Flatten(bufs)
    {
      span := Span(0, |bufs|);
      for i := 0 to |bufs|
        invariant forall j :: 0 <= j < i ==> asioBufs[j] == Descriptor(j, 0, |bufs[j]|)
      {
        asioBufs[i] := Descriptor(i, 0, |bufs[i]|);
      }
      total := 0;
      for i := 0 to |bufs|
        invariant total == |Flatten(bufs[..i])|
        invariant forall j :: 0 <= j < |bufs| ==> asioBufs[j] == Descriptor(j, 0, |bufs[j]|)
      {
        total := total + asioBufs[i].size;
        FlattenSnoc(bufs[..i], bufs[i]);
        assert bufs[..i] + [bufs[i]] == bufs[..i + 1];
      }
      assert bufs[..|bufs|] == bufs == bufs[0..];
      PointedAll(asioBufs[..|bufs|], bufs, 0);
    }

    /** Joins adjacent small buffers, writing results over the slots already consumed
        while later slots are still read through their descriptors. */
    method ConcatSmallBuffers()
      requires Valid() && bufs != []
      modifies this`bufs, asioBufs
      ensures Valid()
      ensures bufs == Compaction.Compact(old(bufs), CONCATENATED_BUFFER_MAX_SIZE)
    {
      ghost var was := bufs;
      var resultsFirst, first, newSize := 0, 0, |bufs|;
      var _, _ := AsioBufs();
      assert was[0..] == was;
      while first < |bufs|
        invariant resultsFirst <= first <= |was| == |bufs| <= MAX_SEQ_LENGTH
        invariant newSize == |bufs| - (first - resultsFirst)
        invariant ShowsFrom(asioBufs[..|was|], was, 0)
        invariant bufs[first..] == was[first..]
        invariant bufs[..resultsFirst] + Compaction.Compact(was[first..], CONCATENATED_BUFFER_MAX_SIZE)
               == Compaction.Compact(was, CONCATENATED_BUFFER_MAX_SIZE)
        decreases |was| - first
      {
        var last, groupSize := FindGroupEnd(first, was);
        ghost var done := bufs[..resultsFirst];
        StoreGroup(resultsFirst, first, last, groupSize, was);
        assert bufs[..resultsFirst + 1] == done + [Flatten(was[first..last])];
        GroupDone(was, first, last, done);
        newSize := newSize - (last - first - 1);
        first := last;
        resultsFirst := resultsFirst + 1;
      }
      bufs := bufs[..newSize];
    }

    /** The end of the greedy group that starts at slot `first`, and its size. */
    method FindGroupEnd(first: nat, ghost was: seq<Buffer>) returns (last: nat, groupSize: nat)
      requires Valid() && first < |bufs| == |was|
      requires ShowsFrom(asioBufs[..|was|], was, 0)
      ensures first < last <= |was|
      ensures last - first == Compaction.FirstGroup(was[first..], CONCATENATED_BUFFER_MAX_SIZE)
      ensures was[first..][..last - first] == was[first..last]
      ensures groupSize == |Flatten(was[first..last])|
    {
      last, groupSize := first + 1, asioBufs[first].size;
      FlattenOne(was[first]);
      assert was[first..last] == [was[first]];
      assert was[first..][1..] == was[last..];
      while last < |bufs| && groupSize + asioBufs[last].size <= CONCATENATED_BUFFER_MAX_SIZE
        invariant first < last <= |was|
        invariant groupSize == |Flatten(was[first..last])|
        invariant last - first + Compaction.Fits(groupSize, was[last..], CONCATENATED_BUFFER_MAX_SIZE)
               == Compaction.FirstGroup(was[first..], CONCATENATED_BUFFER_MAX_SIZE)
        decreases |was| - last
      {
        OneMoreSlot(was, first, last, last + 1);
        assert was[last..][1..] == was[last + 1..];
        groupSize := groupSize + asioBufs[last].size;
        last := last + 1;
      }
    }

    /** Puts the group of slots `first..last` into slot `to`. A buffer that is only moved
        leaves an empty one behind. */
    method StoreGroup(to: nat, first: nat, last: nat, groupSize: nat, ghost was: seq<Buffer>)
      requires Valid() && to <= first < last <= |bufs| == |was|
      requires ShowsFrom(asioBufs[..|was|], was, 0)
      requires bufs[first..] == was[first..]
      requires groupSize == |Flatten(was[first..last])|
      modifies this`bufs
      ensures Valid() && |bufs| == |was|
      ensures bufs[..to] == old(bufs[..to])
      ensures bufs[to] == Flatten(was[first..last])
      ensures bufs[last..] == was[last..]
    {
      assert forall i :: first <= i < |bufs| ==> bufs[i] == bufs[first..][i - first] == was[i];
      if last - first > 1 {
        var newBuf := JoinSlots(first, last, groupSize, was);
        bufs := bufs[to := newBuf];
      } else {
        assert was[first..last] == [was[first]];
        FlattenOne(was[first]);
        if to != first {
          bufs := bufs[to := bufs[first]][first := []];
        }
      }
    }

    /** Copies the buffers of slots `first..last` one after the other into a new buffer. */
    method JoinSlots(first: nat, last: nat, size: nat, ghost was: seq<Buffer>) returns (joined: Buffer)
      requires Valid() && first <= last <= |bufs| == |was|
      requires ShowsFrom(asioBufs[..|was|], was, 0)
      requires bufs[first..last] == was[first..last]
      requires size == |Flatten(was[first..last])|
      ensures joined == Flatten(was[first..last])
    {
      var dest := new Byte[size];
      var at := 0;
      for i := first to last
        invariant at == |Flatten(was[first..i])| <= size
        invariant dest[..at] == Flatten(was[first..i])
      {
        var d := asioBufs[i];
        assert bufs[i] == bufs[first..last][i - first] == was[i];
        OneMoreSlot(was, first, i, last);
        var src := Read(d, bufs);
        Memcpy(dest, at, src);
        assert dest[..at + |src|] == dest[..at] + dest[at..at + |src|];
        at := at + |src|;
      }
      joined := dest[..];
      assert dest[..] == dest[..at];
    }
  }
}
