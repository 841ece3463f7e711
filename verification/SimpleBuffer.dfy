/** The standard byte buffer: a block of memory of which the first `size` bytes count. */
module SimpleBuffers {
  import opened Bytes
  import W = WritableSequences

  class SimpleBuffer {
    var size: nat
    var mem: array<Byte>

    ghost predicate Valid()
      reads this
    {
      size <= mem.Length
    }

    function Capacity(): (n: nat)
      reads this
    {
      mem.Length
    }

    ghost function Contents(): (b: Buffer)
      requires Valid()
      reads this, mem
      ensures |b| == size
    {
      mem[..size]
    }

    constructor (data: Buffer)
      ensures Valid() && Contents() == data && Capacity() == |data|
      ensures fresh(mem)
    {
      size := |data|;
      mem := new Byte[|data|](i requires 0 <= i < |data| => data[i]);
    }

    method ShrinkSize(n: nat)
      requires Valid() && n <= size
      modifies this`size
      ensures Valid() && Contents() == old(Contents())[..n]
    {
      size := n;
    }

    /** Keeps the data up to the smaller of the two sizes; what is beyond is whatever was in
        the memory. New memory is taken only if the old does not suffice. */
    method Resize(n: nat)
      requires Valid()
      modifies this
      ensures Valid() && size == n
      ensures mem == old(mem) || fresh(mem)
      ensures mem == old(mem) <==> n <= old(Capacity())
      ensures Capacity() == if n <= old(Capacity()) then old(Capacity()) else n
      ensures old(size) <= n ==> Contents()[..old(size)] == old(Contents())
      ensures n <= old(size) ==> Contents() == old(Contents())[..n]
    {
      if n <= mem.Length {
        size := n;
        return;
      }
      var newMem := new Byte[n];
      W.Memcpy(newMem, 0, mem[..size]);
      assert newMem[0..size] == newMem[..size];
      mem := newMem;
      size := n;
    }

    /** Puts `data` behind the present content. */
    method Extend(data: Buffer)
      requires Valid()
      modifies this, mem
      ensures Valid() && Contents() == old(Contents()) + data
      ensures mem == old(mem) || fresh(mem)
    {
      var at := size;
      ghost var was := Contents();
      Resize(at + |data|);
      assert mem[..at] == was;
      W.Memcpy(mem, at, data);
      assert mem[..at + |data|] == mem[..at] + mem[at..at + |data|];
    }
  }
}
