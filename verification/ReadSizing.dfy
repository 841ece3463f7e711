/** How large a buffer an entry asks for next, from how much of the last one was used. */
module ReadSizing {
  const SIZE_32MB: nat := 32 * 1024 * 1024

  /** The first of size, 2 * size, 4 * size, ... that is not below `n`. */
  function Doubled(size: nat, n: nat): (r: nat)
    requires size > 0 || n == 0
    decreases n - size
  {
    if size >= n then size else Doubled(2 * size, n)
  }

  /** Does doubling get from `size` to `n` within `rounds` rounds? */
  predicate GetsThere(size: nat, n: nat, rounds: nat)
    decreases rounds
  {
    size >= n || (rounds > 0 && GetsThere(2 * size, n, rounds - 1))
  }

  predicate EndsWithin(size: nat, n: nat, rounds: nat)
  {
    GetsThere(size, n, rounds)
  }

  lemma {:induction false} ZeroNeverGetsThere(n: nat, rounds: nat)
    requires n > 0
    ensures !GetsThere(0, n, rounds)
    decreases rounds
  {
    if rounds > 0 {
      ZeroNeverGetsThere(n, rounds - 1);
    }
  }

  lemma {:induction false} RoundsNeeded(size: nat, n: nat) returns (rounds: nat)
    requires size > 0 || n == 0
    ensures GetsThere(size, n, rounds)
    decreases n - size
  {
    rounds := 0;
    if size < n {
      rounds := RoundsNeeded(2 * size, n);
      rounds := rounds + 1;
    }
  }

  /** The doubling loop ends exactly if it has something to double or nothing to reach. */
  lemma DoublingEndsExactlyWhen(size: nat, n: nat)
    ensures (exists rounds: nat :: EndsWithin(size, n, rounds)) <==> size > 0 || n == 0
  {
    if size > 0 || n == 0 {
      var rounds := RoundsNeeded(size, n);
      assert EndsWithin(size, n, rounds);
    } else {
      forall rounds: nat
        ensures !EndsWithin(size, n, rounds)
      {
        ZeroNeverGetsThere(n, rounds);
      }
    }
  }

  /** `x` is `c` times a power of two. */
  predicate DoublingOf(c: nat, x: nat)
    requires c > 0
    decreases x
  {
    x == c || (x > c && x % 2 == 0 && DoublingOf(c, x / 2))
  }

  /** Was the last buffer, of explicit size or (for 0) of the configured one, used up? */
  predicate FullyUsed(configured: nat, latest: nat, n: nat)
  {
    if latest != 0 then latest == n else configured == n
  }

  /** The doubling loop is not reached, or it ends. */
  predicate SizingEnds(configured: nat, latest: nat, n: nat)
  {
    FullyUsed(configured, latest, n) || configured > 0 || n == 0
  }

  /** The explicit size of the next read buffer; 0 stands for the configured size. */
  function NextSize(configured: nat, latest: nat, n: nat): (r: nat)
    requires SizingEnds(configured, latest, n)
  {
    if FullyUsed(configured, latest, n) then (if n * 2 <= SIZE_32MB then n * 2 else SIZE_32MB)
    else if configured <= n then Doubled(configured * 2, n)
    else 0
  }

  /** The assertion of the doubling loop, which is only reached if the loop runs. */
  predicate LoopAssertHolds(configured: nat, latest: nat, n: nat)
    requires SizingEnds(configured, latest, n)
  {
    !FullyUsed(configured, latest, n) && configured * 2 < n ==> NextSize(configured, latest, n) <= SIZE_32MB
  }

  class RawBytesHandler {
    var latestExplicitlyAllocatedReadBufSize: nat

    constructor ()
      ensures latestExplicitlyAllocatedReadBufSize == 0
    {
      latestExplicitlyAllocatedReadBufSize := 0;
    }

    /** Sizes the next buffer after `n` bytes have been read, and tells whether the assertion
        in the loop held each time it was evaluated. */
    method OnInput(configured: nat, n: nat) returns (assertHeld: bool)
      requires SizingEnds(configured, latestExplicitlyAllocatedReadBufSize, n)
      modifies this
      ensures latestExplicitlyAllocatedReadBufSize == NextSize(configured, old(latestExplicitlyAllocatedReadBufSize), n)
      ensures assertHeld == LoopAssertHolds(configured, old(latestExplicitlyAllocatedReadBufSize), n)
    {
      assertHeld := true;
      var latest := latestExplicitlyAllocatedReadBufSize;
      var fullyUtilized := if latest != 0 then latest == n else configured == n;
      if fullyUtilized {
        latestExplicitlyAllocatedReadBufSize := if n * 2 <= SIZE_32MB then n * 2 else SIZE_32MB;
      } else if configured <= n {
        latest := configured * 2;
        while latest < n
          invariant (latest > 0 || n == 0) && Doubled(latest, n) == Doubled(configured * 2, n)
          invariant configured * 2 <= latest
          invariant assertHeld <==> (latest == configured * 2 || latest <= SIZE_32MB)
          invariant latest > configured * 2 ==> configured * 2 < n
          decreases n - latest
        {
          latest := latest * 2;
          assertHeld := assertHeld && latest <= SIZE_32MB;
        }
        latestExplicitlyAllocatedReadBufSize := latest;
      } else {
        latestExplicitlyAllocatedReadBufSize := 0;
      }
    }
  }

  // ---------- Runs ----------

  function SizeAfter(configured: nat, chunks: seq<nat>): (r: nat)
    requires configured > 0
    decreases |chunks|
  {
    if chunks == [] then 0 else NextSize(configured, SizeAfter(configured, chunks[..|chunks| - 1]), chunks[|chunks| - 1])
  }

  function RoomFor(configured: nat, latest: nat): (r: nat)
  {
    if latest != 0 then latest else configured
  }

  /** Every read brings something, and no more than its buffer holds. */
  predicate LegalReads(configured: nat, chunks: seq<nat>)
    requires configured > 0
    decreases |chunks|
  {
    chunks == []
    || (&& LegalReads(configured, chunks[..|chunks| - 1])
        && 1 <= chunks[|chunks| - 1] <= RoomFor(configured, SizeAfter(configured, chunks[..|chunks| - 1])))
  }

  /** What sizing is meant to do after a read of `n` bytes: no assertion fails, an explicit
      size is the configured one doubled some times and at most 32 MiB, large enough for the
      same amount again and not more than twice that, and larger than the configured one
      unless it is the largest. */
  predicate WellSized(configured: nat, latest: nat, n: nat)
    requires configured > 0
  {
    var size := NextSize(configured, latest, n);
    && LoopAssertHolds(configured, latest, n)
    && size <= SIZE_32MB
    && (if size == 0 then n < configured else n <= size <= 2 * n && DoublingOf(configured, size))
    && (size == 0 || size > configured || size == SIZE_32MB)
  }

  predicate AllWellSized(configured: nat, chunks: seq<nat>)
    requires configured > 0
    decreases |chunks|
  {
    chunks == []
    || (&& AllWellSized(configured, chunks[..|chunks| - 1])
        && WellSized(configured, SizeAfter(configured, chunks[..|chunks| - 1]), chunks[|chunks| - 1]))
  }

  // ---------- Doublings ----------

  lemma {:induction false} DoublingsApart(c: nat, x: nat, y: nat)
    requires c > 0 && DoublingOf(c, x) && DoublingOf(c, y) && x < y
    ensures 2 * x <= y
    decreases y
  {
    if x > y / 2 {
      if x != c {
        DoublingsApart(c, y / 2, x);
      }
    }
  }

  lemma DoubleOnceMore(c: nat, x: nat)
    requires c > 0 && DoublingOf(c, x)
    ensures c <= x && DoublingOf(c, 2 * x)
  {
  }

  /** The size the loop finds is the smallest doubling that will do. */
  lemma {:induction false} DoubledIsLeast(c: nat, size: nat, n: nat, y: nat)
    requires c > 0 && DoublingOf(c, size)
    ensures var r := Doubled(size, n);
            && DoublingOf(c, r) && size <= r && n <= r
            && (size < n ==> r < 2 * n)
            && (DoublingOf(c, y) && size <= y && n <= y ==> r <= y)
    decreases n - size
  {
    if size < n {
      DoubleOnceMore(c, size);
      if DoublingOf(c, y) && n <= y {
        DoublingsApart(c, size, y);
      }
      DoubledIsLeast(c, 2 * size, n, y);
    }
  }

  lemma {:induction false} SoundSizes(c: nat, chunks: seq<nat>)
    requires c > 0 && DoublingOf(c, SIZE_32MB) && LegalReads(c, chunks)
    ensures AllWellSized(c, chunks)
    ensures var size := SizeAfter(c, chunks); size != 0 ==> DoublingOf(c, size) && size <= SIZE_32MB
    decreases |chunks|
  {
    if chunks != [] {
      var before := chunks[..|chunks| - 1];
      SoundSizes(c, before);
      SoundStep(c, SizeAfter(c, before), chunks[|chunks| - 1], SIZE_32MB);
    }
  }

  lemma SoundStep(c: nat, latest: nat, n: nat, most: nat)
    requires c > 0 && most == SIZE_32MB && DoublingOf(c, most) && 1 <= n <= RoomFor(c, latest)
    requires latest != 0 ==> DoublingOf(c, latest) && latest <= most
    ensures WellSized(c, latest, n)
  {
    assert DoublingOf(c, c);
    hide DoublingOf, Doubled;
    if FullyUsed(c, latest, n) {
      assert DoublingOf(c, n);
      FullStep(c, n, most);
    } else if c <= n {
      PartStep(c, latest, n);
    }
  }

  lemma FullStep(c: nat, n: nat, most: nat)
    requires c > 0 && DoublingOf(c, n) && DoublingOf(c, most) && n <= most
    ensures var size := if n * 2 <= most then n * 2 else most;
            n <= size <= 2 * n && DoublingOf(c, size)
  {
    DoubleOnceMore(c, n);
    if n < most {
      DoublingsApart(c, n, most);
    }
  }

  lemma PartStep(c: nat, latest: nat, n: nat)
    requires c > 0 && DoublingOf(c, latest) && c <= n < latest
    ensures var size := Doubled(c * 2, n);
            n <= size <= 2 * n && size <= latest && DoublingOf(c, size)
  {
    DoubleOnceMore(c, c);
    DoublingsApart(c, c, latest);
    DoubledIsLeast(c, c * 2, n, latest);
  }

  /** The largest doubling below 32 MiB, when 32 MiB is not one itself. */
  lemma {:induction false} LastDoubling(c: nat, x: nat) returns (y: nat)
    requires c > 0 && DoublingOf(c, x) && x < SIZE_32MB && !DoublingOf(c, SIZE_32MB)
    ensures DoublingOf(c, y) && y < SIZE_32MB < 2 * y
    decreases SIZE_32MB - x
  {
    DoubleOnceMore(c, x);
    y := x;
    if 2 * x < SIZE_32MB {
      y := LastDoubling(c, 2 * x);
    }
  }

  /** Reads that use up every buffer get there. */
  lemma {:induction false} UsedUp(c: nat, x: nat) returns (chunks: seq<nat>)
    requires c > 0 && DoublingOf(c, x) && x < SIZE_32MB
    ensures LegalReads(c, chunks) && SizeAfter(c, chunks) == if 2 * x <= SIZE_32MB then 2 * x else SIZE_32MB
    decreases x
  {
    var before := [];
    if x != c {
      before := UsedUp(c, x / 2);
    }
    chunks := before + [x];
    assert chunks[..|before|] == before;
  }

  /** A configured size that 32 MiB is no doubling of goes wrong. */
  lemma UnsoundSizes(c: nat) returns (chunks: seq<nat>)
    requires c > 0 && !DoublingOf(c, SIZE_32MB)
    ensures LegalReads(c, chunks) && !AllWellSized(c, chunks)
  {
    if c > SIZE_32MB {
      chunks := [c];
      assert chunks[..0] == [];
    } else {
      assert DoublingOf(c, c);
      hide DoublingOf, Doubled;
      var y := LastDoubling(c, c);
      var before := UsedUp(c, y);
      var n := if y == c then c else y + 1;
      OddStep(c, y, n);
      chunks := before + [n];
      assert chunks[..|before|] == before;
    }
  }

  lemma OddStep(c: nat, y: nat, n: nat)
    requires c > 0 && DoublingOf(c, y) && y < SIZE_32MB < 2 * y && n == if y == c then c else y + 1
    ensures n < SIZE_32MB && c <= n && Doubled(c * 2, n) > SIZE_32MB
  {
    DoubleOnceMore(c, c);
    DoubleOnceMore(c, y);
    DoubledIsLeast(c, c * 2, n, 2 * y);
    var r := Doubled(c * 2, n);
    if y != c {
      DoublingsApart(c, y, r);
    }
  }

  /** Sizing does what it is meant to, over every sequence of reads, exactly for the
      configured sizes of which 32 MiB is a doubling. */
  lemma SizingIsSound(c: nat)
    requires c > 0
    ensures (forall chunks :: LegalReads(c, chunks) ==> AllWellSized(c, chunks)) <==> DoublingOf(c, SIZE_32MB)
  {
    if DoublingOf(c, SIZE_32MB) {
      forall chunks | LegalReads(c, chunks)
        ensures AllWellSized(c, chunks)
      {
        SoundSizes(c, chunks);
      }
    } else {
      var chunks := UnsoundSizes(c);
    }
  }
}
