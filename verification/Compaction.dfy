/** What compacting a list of buffers means: the greedy grouping of adjacent small
    buffers, and why no other grouping does better. */
module Compaction {
  import opened Bytes

  /** How many buffers of `rest` still fit into a group that already holds `size` bytes. */
  function Fits(size: nat, rest: seq<Buffer>, limit: nat): (k: nat)
    ensures k <= |rest|
    decreases |rest|
  {
    if rest == [] || size + |rest[0]| > limit then 0
    else 1 + Fits(size + |rest[0]|, rest[1..], limit)
  }

  /** The number of leading buffers the greedy rule puts into the first group. */
  function FirstGroup(bufs: seq<Buffer>, limit: nat): (k: nat)
    requires bufs != []
    ensures 1 <= k <= |bufs|
  {
    1 + Fits(|bufs[0]|, bufs[1..], limit)
  }

  function Compact(bufs: seq<Buffer>, limit: nat): (r: seq<Buffer>)
    decreases |bufs|
  {
    if bufs == [] then [] else
      var k := FirstGroup(bufs, limit);
      [Flatten(bufs[..k])] + Compact(bufs[k..], limit)
  }

  /** `groups` cuts `bufs` into adjacent non-empty runs, and every run of two or more
      buffers holds at most `limit` bytes. */
  ghost predicate LegalGrouping(bufs: seq<Buffer>, groups: seq<seq<Buffer>>, limit: nat)
  {
    && Flatten(groups) == bufs
    && forall g <- groups :: g != [] && (|g| > 1 ==> |Flatten(g)| <= limit)
  }

  ghost predicate NoNeighboursFit(bufs: seq<Buffer>, limit: nat)
  {
    forall i :: 0 <= i < |bufs| - 1 ==> |bufs[i]| + |bufs[i + 1]| > limit
  }

  /** The first `Fits` buffers are within the limit and one more is not. */
  lemma {:induction false} FitsIsMaximal(size: nat, rest: seq<Buffer>, limit: nat)
    ensures var k := Fits(size, rest, limit);
            && (k > 0 ==> size + |Flatten(rest[..k])| <= limit)
            && (k < |rest| ==> size + |Flatten(rest[..k])| + |rest[k]| > limit)
    decreases |rest|
  {
    var k := Fits(size, rest, limit);
    if k > 0 {
      FitsIsMaximal(size + |rest[0]|, rest[1..], limit);
      assert rest[..k][1..] == rest[1..][..k - 1];
    }
  }

  lemma FirstGroupIsMaximal(bufs: seq<Buffer>, limit: nat)
    requires bufs != []
    ensures var k := FirstGroup(bufs, limit);
            && (k > 1 ==> |Flatten(bufs[..k])| <= limit)
            && (k < |bufs| ==> |Flatten(bufs[..k])| + |bufs[k]| > limit)
  {
    var k := FirstGroup(bufs, limit);
    FitsIsMaximal(|bufs[0]|, bufs[1..], limit);
    assert bufs[..k][1..] == bufs[1..][..k - 1];
  }

  lemma FlattenPrefixLen(bufs: seq<Buffer>, j: nat, k: nat)
    requires j <= k <= |bufs|
    ensures |Flatten(bufs[..j])| <= |Flatten(bufs[..k])|
    ensures j < k ==> |Flatten(bufs[..j])| + |bufs[j]| <= |Flatten(bufs[..k])|
  {
    FlattenSplit(bufs[..k], j);
    assert bufs[..k][..j] == bufs[..j];
    if j < k {
      assert bufs[..k][j..][0] == bufs[j];
    }
  }

  /** Any run from the start that fits is no longer than the greedy one. */
  lemma GreedyReachesFurthest(bufs: seq<Buffer>, m: nat, limit: nat)
    requires 1 <= m <= |bufs|
    requires m > 1 ==> |Flatten(bufs[..m])| <= limit
    ensures m <= FirstGroup(bufs, limit)
  {
    var k := FirstGroup(bufs, limit);
    FirstGroupIsMaximal(bufs, limit);
    if k < m {
      FlattenPrefixLen(bufs, k, m);
    }
  }

  lemma {:induction false} DroppingNeverCostsAGroup(bufs: seq<Buffer>, j: nat, limit: nat)
    requires j <= |bufs|
    ensures |Compact(bufs[j..], limit)| <= |Compact(bufs, limit)|
    decreases |bufs|
  {
    if bufs == [] || j == 0 {
      assert bufs[j..] == bufs;
    } else if j == |bufs| {
      assert bufs[j..] == [];
    } else {
      var k := FirstGroup(bufs, limit);
      if k <= j {
        DroppingNeverCostsAGroup(bufs[k..], j - k, limit);
        assert bufs[k..][j - k..] == bufs[j..];
      } else {
        // bufs[j..k] is part of the first group, so it fits; the greedy run from j
        // reaches at least k.
        var tail := bufs[j..];
        FirstGroupIsMaximal(bufs, limit);
        FlattenSplit(bufs[..k], j);
        assert bufs[..k][j..] == tail[..k - j];
        GreedyReachesFurthest(tail, k - j, limit);
        var k' := FirstGroup(tail, limit);
        DroppingNeverCostsAGroup(bufs[k..], j + k' - k, limit);
        assert bufs[k..][j + k' - k..] == tail[k'..];
      }
    }
  }

  /** Compaction keeps the bytes and their order. */
  lemma {:induction false} CompactKeepsBytes(bufs: seq<Buffer>, limit: nat)
    ensures Flatten(Compact(bufs, limit)) == Flatten(bufs)
    decreases |bufs|
  {
    if bufs != [] {
      var k := FirstGroup(bufs, limit);
      CompactKeepsBytes(bufs[k..], limit);
      FlattenSplit(bufs, k);
      FlattenConcat([Flatten(bufs[..k])], Compact(bufs[k..], limit));
      FlattenOne(Flatten(bufs[..k]));
    }
  }

  /** Compaction never lengthens the list, and a non-empty list stays non-empty. */
  lemma {:induction false} CompactLength(bufs: seq<Buffer>, limit: nat)
    ensures |Compact(bufs, limit)| <= |bufs|
    ensures bufs != [] ==> Compact(bufs, limit) != []
    decreases |bufs|
  {
    if bufs != [] {
      CompactLength(bufs[FirstGroup(bufs, limit)..], limit);
    }
  }

  /** The greedy result is itself a legal grouping ... */
  lemma {:induction false} CompactIsLegal(bufs: seq<Buffer>, limit: nat) returns (groups: seq<seq<Buffer>>)
    ensures LegalGrouping(bufs, groups, limit)
    ensures |groups| == |Compact(bufs, limit)|
    ensures forall i :: 0 <= i < |groups| ==> Flatten(groups[i]) == Compact(bufs, limit)[i]
    decreases |bufs|
  {
    if bufs == [] {
      groups := [];
    } else {
      var k := FirstGroup(bufs, limit);
      FirstGroupIsMaximal(bufs, limit);
      var rest := CompactIsLegal(bufs[k..], limit);
      groups := [bufs[..k]] + rest;
      FlattenConcat([bufs[..k]], rest);
      FlattenOne(bufs[..k]);
      assert bufs == bufs[..k] + bufs[k..];
    }
  }

  lemma LegalTail(bufs: seq<Buffer>, groups: seq<seq<Buffer>>, limit: nat)
    requires LegalGrouping(bufs, groups, limit) && groups != []
    ensures var m := |groups[0]|;
            && 1 <= m <= |bufs| && bufs[..m] == groups[0]
            && (m > 1 ==> |Flatten(groups[0])| <= limit)
            && LegalGrouping(bufs[m..], groups[1..], limit)
  {
    assert groups[0] in groups;
    assert forall g <- groups[1..] :: g in groups;
  }

  /** ... and no legal grouping uses fewer groups. */
  lemma {:induction false} CompactIsOptimal(bufs: seq<Buffer>, groups: seq<seq<Buffer>>, limit: nat)
    requires LegalGrouping(bufs, groups, limit)
    ensures |Compact(bufs, limit)| <= |groups|
    decreases |groups|
  {
    if groups != [] {
      hide LegalGrouping;
      var m := |groups[0]|;
      LegalTail(bufs, groups, limit);
      CompactIsOptimal(bufs[m..], groups[1..], limit);
      GreedyReachesFurthest(bufs, m, limit);
      var k := FirstGroup(bufs, limit);
      DroppingNeverCostsAGroup(bufs[m..], k - m, limit);
      assert bufs[m..][k - m..] == bufs[k..];
    }
  }

  /** Two adjacent results never fit together. */
  lemma {:induction false} CompactLeavesNoFittingNeighbours(bufs: seq<Buffer>, limit: nat)
    ensures NoNeighboursFit(Compact(bufs, limit), limit)
    decreases |bufs|
  {
    if bufs != [] {
      var k := FirstGroup(bufs, limit);
      var rest := bufs[k..];
      CompactLeavesNoFittingNeighbours(rest, limit);
      FirstGroupIsMaximal(bufs, limit);
      if rest != [] {
        FlattenPrefixLen(rest, 0, FirstGroup(rest, limit));
      }
    }
  }

  lemma {:induction false} NothingToCompact(bufs: seq<Buffer>, limit: nat)
    requires NoNeighboursFit(bufs, limit)
    ensures Compact(bufs, limit) == bufs
    decreases |bufs|
  {
    if bufs != [] {
      if |bufs| > 1 {
        assert |bufs[0]| + |bufs[1]| > limit;
      }
      assert FirstGroup(bufs, limit) == 1;
      FlattenOne(bufs[0]);
      assert bufs[..1] == [bufs[0]];
      NothingToCompact(bufs[1..], limit);
    }
  }

  /** A second run changes nothing. */
  lemma CompactIsIdempotent(bufs: seq<Buffer>, limit: nat)
    ensures Compact(Compact(bufs, limit), limit) == Compact(bufs, limit)
  {
    CompactLeavesNoFittingNeighbours(bufs, limit);
    NothingToCompact(Compact(bufs, limit), limit);
  }
}
