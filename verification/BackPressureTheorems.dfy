/** What a user of a back pressure stream may rely on, over every order of submissions, of
    steps of the connection and of reports, and every behaviour of the operating system. */
module BackPressureTheorems {
  import opened Bytes
  import opened Options
  import opened WriteQueue
  import opened WriteQueueInvariant
  import opened BackPressure

  /** At most one buffer is in flight and one waits behind it. What is sent is a subsequence
      of what was submitted, and each time the newest; what waits is the newest so far.
      Every buffer submitted has been sent, dropped or is waiting. */
  ghost predicate SendsOnlyTheNewest(x: Stream)
  {
    var waiting := x.context.memorizedBuf;
    && 0 <= x.context.inFlight <= 1
    && (waiting.Some? ==> x.context.inFlight == 1 && x.submitted != [] && waiting.value == x.submitted[|x.submitted| - 1])
    && (forall i, k :: 0 <= i < k < |x.sent| ==> x.sent[i].at < x.sent[k].at)
    && (forall s <- x.sent :: s.at == s.outOf - 1 && s.outOf <= |x.submitted| && s.buf == x.submitted[s.at])
    && |x.submitted| == |x.sent| + x.dropped + if waiting.Some? then 1 else 0
  }

  /** With nothing waiting, the last buffer submitted is the last one sent; otherwise the drop
      counter tells how many submissions the waiting buffer has replaced. */
  ghost predicate LosesNoNews(x: Stream)
  {
    var n := |x.submitted|;
    && (x.context.inFlight == 0 ==> x.context.memorizedBuf.None?)
    && (n > 0 ==> x.sent != [])
    && (n > 0 && x.context.memorizedBuf.None? ==>
          x.context.droppedBufs == 0 && x.sent[|x.sent| - 1].at == n - 1 && x.sent[|x.sent| - 1].buf == x.submitted[n - 1])
    && (n > 0 && x.context.memorizedBuf.Some? ==> x.context.droppedBufs == n - 2 - x.sent[|x.sent| - 1].at)
  }

  lemma OnlyTheNewestIsSent(o: Oracle, events: seq<JointEvent>, tag: nat)
    ensures var x := At(Run(o, events).streams, tag); SendsOnlyTheNewest(x) && LosesNoNews(x)
  {
    var j := Run(o, events);
    AtOk(j, tag);
    hide Inv, Run, LinkOk, BooksOk, SendsOnlyTheNewest, LosesNoNews;
    BooksTell(At(j.streams, tag));
  }

  lemma BooksTell(x: Stream)
    requires BooksOk(x)
    ensures SendsOnlyTheNewest(x) && LosesNoNews(x)
  {
    assert forall s <- x.sent :: SentOk(x, s);
    if x.sent != [] {
      assert SentOk(x, x.sent[|x.sent| - 1]);
    }
  }

  lemma {:induction false} TakenBytesPrefix(sends: seq<SendRecord>, n: nat)
    requires n <= |sends|
    ensures TakenBytes(sends[..n]) <= TakenBytes(sends)
    decreases |sends|
  {
    if n < |sends| {
      var shorter := sends[..|sends| - 1];
      TakenBytesPrefix(shorter, n);
      assert shorter[..n] == sends[..n];
    } else {
      assert sends[..n] == sends;
    }
  }

  /** Only the last buffer sent can still be on its way: all others of the stream have
      reached the socket whole, each at the place its send has in the byte stream, and so has
      the last one when nothing is in flight. */
  lemma OnlyOneIsOnItsWay(o: Oracle, events: seq<JointEvent>, tag: nat, k: nat)
    ensures var j := Run(o, events);
            var x := At(j.streams, tag);
            k < |x.sent| - x.context.inFlight ==>
              && 0 <= x.context.inFlight <= 1
              && x.sent[k].place.Made? && x.sent[k].place.id < |j.conn.sends|
              && TakenBytes(j.conn.sends[..x.sent[k].place.id]) + x.sent[k].buf <= j.conn.wire
  {
    var j := Run(o, events);
    var x := At(j.streams, tag);
    AtOk(j, tag);
    hide Inv, Run, At, TakenBytes;
    if k < |x.sent| - x.context.inFlight {
      var s := x.sent[k];
      assert Acknowledges(j.conn, x.handled[k], s) && Registered(j.conn, s);
      AcknowledgedIsWritten(j.conn, x.handled[k], s);
    }
  }

  lemma AcknowledgedIsWritten(conn: Conn, n: nat, s: Sent)
    requires Inv(conn) && Acknowledges(conn, n, s) && Registered(conn, s)
    ensures TakenBytes(conn.sends[..s.place.id]) + s.buf <= conn.wire
  {
    var id := s.place.id;
    var upTo := conn.sends[..id + 1];
    assert FiredCbOk(conn, conn.fired[n]);
    hide CallbacksOk, WatchdogOk, StatusOk, Settled;
    assert upTo[..id] == conn.sends[..id];
    FlattenOne(s.buf);
    TakenBytesPrefix(conn.sends, id + 1);
    assert TakenBytes(upTo) == TakenBytes(conn.sends[..id]) + s.buf;
    assert conn.wire <= TakenBytes(conn.sends);
    TwoPrefixes(TakenBytes(upTo), conn.wire, TakenBytes(conn.sends));
  }

  lemma TwoPrefixes(a: Buffer, b: Buffer, all: Buffer)
    requires a <= all && b <= all && |a| <= |b|
    ensures a <= b
  {
  }

  /** A stream waits only for a reason: its buffer has not reached the connection yet, or its
      callback is still queued there, or has run and can be reported, or has run with a
      failure, or the entry had dropped the buffer because it was not active any more. */
  lemma WaitsForAReason(o: Oracle, events: seq<JointEvent>, tag: nat)
    ensures var j := Run(o, events); At(j.streams, tag).context.inFlight == 1 ==> HasAReason(j, tag)
  {
    var j := Run(o, events);
    assert JointInv(j);
    hide Run;
    if At(j.streams, tag).context.inFlight == 1 {
      LastHasAReason(j, tag);
    }
  }

  ghost predicate HasAReason(j: Joint, tag: nat)
  {
    var x := At(j.streams, tag);
    && x.sent != []
    && match x.sent[|x.sent| - 1].place
       case InMailbox => Letter(tag, x.sent[|x.sent| - 1].buf) in j.mailbox
       case Dropped => !j.active
       case Made(id) =>
         || id in CbsOf(j.conn.queue)
         || (exists n: nat :: CanBeReported(j, tag, n) && j.conn.fired[n].cb == id)
         || (exists f <- j.conn.fired :: f.cb == id && f.result != Success)
  }

  lemma LastHasAReason(j: Joint, tag: nat)
    requires JointInv(j) && At(j.streams, tag).context.inFlight == 1
    ensures HasAReason(j, tag)
  {
    var x := j.streams[tag];
    assert StreamOk(j.conn, j.active, x) && CountOk(j.conn, |j.conn.sends|);
    hide Inv, CountOk;
    var last := x.sent[|x.sent| - 1];
    assert Registered(j.conn, last);
    if last.place.InMailbox? {
      assert tag in Tags(j.mailbox);
      var i :| 0 <= i < |j.mailbox| && Tags(j.mailbox)[i] == tag;
      assert j.mailbox[i] == Letter(tag, last.buf);
    } else if last.place.Made? && last.place.id !in CbsOf(j.conn.queue) {
      var n := RunSomewhere(j.conn, last.place.id);
      if j.conn.fired[n].result == Success {
        NotYetHandled(j.conn, j.active, x, n);
        assert CanBeReported(j, tag, n);
      } else {
        assert j.conn.fired[n] in j.conn.fired;
      }
    }
  }

  lemma RunSomewhere(conn: Conn, id: nat) returns (n: nat)
    requires CountOk(conn, |conn.sends|) && id < |conn.sends| && conn.sends[id].withCb
    requires id !in CbsOf(conn.queue)
    ensures n < |conn.fired| && conn.fired[n].cb == id
  {
    assert Occurrences(conn, id) >= 1;
    assert id in Ids(conn.fired);
    n :| 0 <= n < |conn.fired| && Ids(conn.fired)[n] == id;
  }

  lemma NotYetHandled(conn: Conn, active: bool, x: Stream, n: nat)
    requires StreamOk(conn, active, x) && x.context.inFlight == 1
    requires Acknowledges(conn, n, x.sent[|x.sent| - 1])
    ensures n !in x.handled
  {
  }
}
