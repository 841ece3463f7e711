/** What appending to the write queue does to its bytes, its callbacks and its shape. */
module QueueLemmas {
  import opened Bytes
  import opened WritableSequences
  import opened WriteQueue
  import Compaction

  /** Only the back item may be empty, and callbacks wait only behind buffers. */
  ghost predicate QueueOk(q: seq<Item>)
  {
    && q != []
    && (forall i :: 0 <= i < |q| ==> |q[i].bufs| <= MAX_SEQ_LENGTH && (q[i].cbs != [] ==> q[i].bufs != []))
    && (forall i :: 0 <= i < |q| - 1 ==> q[i].bufs != [])
  }

  lemma {:induction false} BytesOfConcat(a: seq<Item>, b: seq<Item>)
    ensures BytesOf(a + b) == BytesOf(a) + BytesOf(b)
  {
    if a == [] {
      assert a + b == b;
    } else {
      assert (a + b)[1..] == a[1..] + b;
      BytesOfConcat(a[1..], b);
    }
  }

  lemma {:induction false} CbsOfConcat(a: seq<Item>, b: seq<Item>)
    ensures CbsOf(a + b) == CbsOf(a) + CbsOf(b)
  {
    if a == [] {
      assert a + b == b;
    } else {
      assert (a + b)[1..] == a[1..] + b;
      CbsOfConcat(a[1..], b);
    }
  }

  lemma OneItem(x: Item)
    ensures BytesOf([x]) == Flatten(x.bufs) && CbsOf([x]) == x.cbs
  {
    assert [x][1..] == [];
  }

  lemma TwoItems(x: Item, y: Item)
    ensures BytesOf([x, y]) == Flatten(x.bufs) + Flatten(y.bufs) && CbsOf([x, y]) == x.cbs + y.cbs
  {
    assert [x, y] == [x] + [y];
    BytesOfConcat([x], [y]);
    CbsOfConcat([x], [y]);
    OneItem(x);
    OneItem(y);
  }

  lemma {:induction false} CbInQueue(q: seq<Item>, cb: nat) returns (i: nat)
    requires cb in CbsOf(q)
    ensures i < |q| && cb in q[i].cbs
  {
    if cb in q[0].cbs {
      i := 0;
    } else {
      var j := CbInQueue(q[1..], cb);
      i := j + 1;
    }
  }

  /** The items an append puts in place of the back one. */
  ghost function NewBack(q: seq<Item>, buf: Buffer): seq<Item>
    requires q != []
  {
    AppendOutgoing(q, buf)[|q| - 1..]
  }

  lemma AppendSplit(q: seq<Item>, buf: Buffer)
    requires q != []
    ensures |AppendOutgoing(q, buf)| >= |q|
    ensures AppendOutgoing(q, buf) == q[..|q| - 1] + NewBack(q, buf)
    ensures 1 <= |NewBack(q, buf)| <= 2
  {
  }

  /** The back items after an append hold the old back's bytes and the new buffer, and the
      callbacks stay with the first of them. */
  lemma NewBackHolds(q: seq<Item>, buf: Buffer)
    requires QueueOk(q)
    ensures var b := NewBack(q, buf); var back := q[|q| - 1];
            && BytesOf(b) == Flatten(back.bufs) + buf
            && CbsOf(b) == back.cbs
            && b[0].cbs == back.cbs
            && QueueOk(b)
            && (forall x <- b :: x.bufs != [])
            && |Flatten(back.bufs)| <= |Flatten(b[0].bufs)|
            && (|b| == 2 ==> b[1].cbs == [] && Flatten(b[1].bufs) == buf)
  {
    var b := NewBack(q, buf);
    var back := q[|q| - 1];
    FlattenOne(buf);
    OneItem(b[0]);
    if |b| == 2 {
      assert b == [b[0], b[1]];
      TwoItems(b[0], b[1]);
    } else {
      assert b == [b[0]];
    }
    FlattenSnoc(back.bufs, buf);
    var packed := Compaction.Compact(back.bufs, CONCATENATED_BUFFER_MAX_SIZE);
    Compaction.CompactKeepsBytes(back.bufs, CONCATENATED_BUFFER_MAX_SIZE);
    Compaction.CompactLength(back.bufs, CONCATENATED_BUFFER_MAX_SIZE);
    FlattenSnoc(packed, buf);
    hide Flatten, BytesOf, CbsOf, Compaction.Compact;
  }

  lemma ReplaceBack(q: seq<Item>, b: seq<Item>)
    requires QueueOk(q) && QueueOk(b)
    requires forall x <- b :: x.bufs != []
    requires |Flatten(q[|q| - 1].bufs)| <= |Flatten(b[0].bufs)|
    ensures var r := q[..|q| - 1] + b;
            && QueueOk(r)
            && r[|r| - 1].bufs != []
            && (|q| >= 2 ==> r[0] == q[0])
            && |Flatten(r[0].bufs)| >= |Flatten(q[0].bufs)|
  {
    var r := q[..|q| - 1] + b;
    assert r[|r| - 1] in b;
    forall i | 0 <= i < |r|
      ensures |r[i].bufs| <= MAX_SEQ_LENGTH && (r[i].cbs != [] ==> r[i].bufs != []) && r[i].bufs != []
    {
      if i >= |q| - 1 {
        assert r[i] == b[i - (|q| - 1)];
      }
    }
  }

  lemma AppendKeepsShape(q: seq<Item>, buf: Buffer)
    requires QueueOk(q)
    ensures var r := AppendOutgoing(q, buf);
            && QueueOk(r) && |r| >= |q|
            && r[|r| - 1].bufs != []
            && (|q| >= 2 ==> r[0] == q[0])
            && |Flatten(r[0].bufs)| >= |Flatten(q[0].bufs)|
  {
    AppendSplit(q, buf);
    NewBackHolds(q, buf);
    ReplaceBack(q, NewBack(q, buf));
  }

  lemma AppendKeepsContent(q: seq<Item>, buf: Buffer)
    requires QueueOk(q)
    ensures BytesOf(AppendOutgoing(q, buf)) == BytesOf(q) + buf
    ensures CbsOf(AppendOutgoing(q, buf)) == CbsOf(q)
  {
    var others, back := q[..|q| - 1], q[|q| - 1];
    hide AppendOutgoing, NewBack, QueueOk, Flatten, BytesOf, CbsOf;
    AppendSplit(q, buf);
    NewBackHolds(q, buf);
    assert q == others + [back];
    BackContent(others, back, NewBack(q, buf), buf);
  }

  lemma BackContent(others: seq<Item>, back: Item, b: seq<Item>, buf: Buffer)
    requires BytesOf(b) == Flatten(back.bufs) + buf && CbsOf(b) == back.cbs
    ensures BytesOf(others + b) == BytesOf(others + [back]) + buf
    ensures CbsOf(others + b) == CbsOf(others + [back])
  {
    OneItem(back);
    BytesOfConcat(others, [back]);
    BytesOfConcat(others, b);
    CbsOfConcat(others, [back]);
    CbsOfConcat(others, b);
  }

  /** No item sees more bytes appear behind it than were appended. */
  lemma AppendBehind(q: seq<Item>, buf: Buffer, i: nat)
    requires QueueOk(q) && i < |AppendOutgoing(q, buf)|
    ensures var r := AppendOutgoing(q, buf);
            if i < |q| then r[i].cbs == q[i].cbs && |BytesOf(r[i + 1..])| <= |BytesOf(q[i + 1..])| + |buf|
            else r[i].cbs == []
  {
    var others, back := q[..|q| - 1], q[|q| - 1];
    hide AppendOutgoing, NewBack, QueueOk, BytesOf, CbsOf, Flatten;
    AppendSplit(q, buf);
    NewBackHolds(q, buf);
    assert q == others + [back];
    BackBehind(others, back, NewBack(q, buf), buf, i);
  }

  lemma BackBehind(others: seq<Item>, back: Item, b: seq<Item>, buf: Buffer, i: nat)
    requires 1 <= |b| <= 2 && i < |others| + |b|
    requires BytesOf(b) == Flatten(back.bufs) + buf && b[0].cbs == back.cbs
    requires |b| == 2 ==> b[1].cbs == [] && Flatten(b[1].bufs) == buf
    ensures var r, q := others + b, others + [back];
            if i < |q| then r[i].cbs == q[i].cbs && |BytesOf(r[i + 1..])| <= |BytesOf(q[i + 1..])| + |buf|
            else r[i].cbs == []
  {
    var r, q := others + b, others + [back];
    if i < |others| {
      assert r[i + 1..] == others[i + 1..] + b && q[i + 1..] == others[i + 1..] + [back];
      BytesOfConcat(others[i + 1..], b);
      BytesOfConcat(others[i + 1..], [back]);
      OneItem(back);
    } else if i == |others| {
      assert r[i + 1..] == b[1..];
      if |b| == 2 {
        assert b[1..] == [b[1]];
        OneItem(b[1]);
      }
    }
  }

  /** Queued buffers are joined only when the back is full and not the only sequence, and then
      greedily up to 16 KiB; with room in it the back just gets the buffer. */
  lemma JoinsOnlyWhenFull(q: seq<Item>, buf: Buffer)
    requires QueueOk(q)
    ensures var back, r := q[|q| - 1].bufs, AppendOutgoing(q, buf);
            var joined := Compaction.Compact(back, 16384);
            && |r| >= |q| && r[..|q| - 1] == q[..|q| - 1]
            && r[|q| - 1].bufs ==
                 (if |back| < 16 then back + [buf]
                  else if |q| == 1 then back
                  else if |joined| < 16 then joined + [buf]
                  else joined)
            && (|r| > |q| ==> r[|q|..] == [Item([buf], [])])
  {
    hide Compaction.Compact;
  }

  /** A further sequence is opened exactly when the back is full and either it is the only
      one, or no legal grouping of its buffers is any shorter. */
  lemma GrowsOnlyWhenItMust(q: seq<Item>, buf: Buffer)
    requires QueueOk(q)
    ensures var back := q[|q| - 1].bufs;
            |AppendOutgoing(q, buf)| == |q| + 1 <==>
              && |back| == MAX_SEQ_LENGTH
              && (|q| == 1
                  || forall groups :: Compaction.LegalGrouping(back, groups, CONCATENATED_BUFFER_MAX_SIZE) ==> |groups| >= |back|)
  {
    var back := q[|q| - 1].bufs;
    var groups := Compaction.CompactIsLegal(back, CONCATENATED_BUFFER_MAX_SIZE);
    Compaction.CompactLength(back, CONCATENATED_BUFFER_MAX_SIZE);
    forall others | Compaction.LegalGrouping(back, others, CONCATENATED_BUFFER_MAX_SIZE)
      ensures |groups| <= |others|
    {
      Compaction.CompactIsOptimal(back, others, CONCATENATED_BUFFER_MAX_SIZE);
    }
    hide Compaction.LegalGrouping, Compaction.Compact;
  }
}
