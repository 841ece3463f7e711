/** What a user of a connection may rely on, over every run and every behaviour of the
    operating system. */
module ConnectionTheorems {
  import opened Bytes
  import opened WriteQueue
  import opened QueueLemmas
  import opened WriteQueueInvariant
  import opened ConnectionRuns

  /** Byte conservation and order: the accepted bytes are the bytes that reached the socket
      followed by the bytes still queued, with nothing lost, doubled or reordered. */
  lemma BytesAreConserved(o: Oracle, events: seq<Event>)
    ensures var s := Run(o, events);
            && s.frontDone <= |BytesOf(s.queue)|
            && TakenBytes(s.sends) == s.wire + Pending(s)
            && s.wire <= TakenBytes(s.sends)
            && (s.queue == [EMPTY] ==> s.wire == TakenBytes(s.sends))
  {
    OneItem(EMPTY);
  }

  /** Nothing is stranded: with data in the queue a write is under way, or a write has
      failed and nothing will be sent any more. */
  lemma NothingIsStranded(o: Oracle, events: seq<Event>)
    ensures var s := Run(o, events);
            || s.queue == [EMPTY]
            || s.outstanding
            || (s.failed && (!s.sendsEnabled || (s.running && s.aborted)))
  {
    hide Conserved, WatchdogOk, CallbacksOk;
    assert Inv(Run(o, events));
  }

  /** While an asynchronous write runs, no send touches the item it writes from. */
  lemma FrozenItemIsLeftAlone(o: Oracle, events: seq<Event>, bufs: seq<Buffer>, withCb: bool)
    ensures var s := Run(o, events);
            var s' := Run(o, events + [Send(bufs, withCb)]);
            s.running ==> |s.queue| >= 2 && |s'.queue| >= 2 && s'.queue[0] == s.queue[0] && s'.frontDone == s.frontDone && s'.wire == s.wire
  {
    var s := Run(o, events);
    var e := Send(bufs, withCb);
    assert (events + [e])[..|events|] == events;
    SendKeeps(o, s, bufs, withCb);
    if s.running {
      RunningSendOnlyQueues(o, s, bufs, withCb);
    }
  }

  lemma {:induction false} TryAllRunning(o: Oracle, s: Conn, bufs: seq<Buffer>, aggressive: bool)
    requires s.queue != [] && s.running
    ensures var s1 := TryAll(o, s, bufs, aggressive).0; s1 == s.(queue := s1.queue, taken := s1.taken)
    decreases |bufs|
  {
    if bufs != [] {
      hide AppendOutgoing;
      TryAllRunning(o, Enqueue(s, bufs[0]), bufs[1..], false);
    }
  }

  lemma RunningSendOnlyQueues(o: Oracle, s: Conn, bufs: seq<Buffer>, withCb: bool)
    requires s.queue != [] && s.running
    ensures var s' := DoSend(o, s, bufs, withCb); s'.running && s'.frontDone == s.frontDone && s'.wire == s.wire
  {
    TryAllRunning(o, s, bufs, true);
  }

  /** With nothing queued and a socket that takes everything, a send of buffers below the
      direct write limit is on the wire, and told so, before it returns. */
  lemma WillingSocketTakesItAll(o: Oracle, events: seq<Event>, bufs: seq<Buffer>, withCb: bool)
    requires forall n :: o(n).ec == NoError
    requires forall b <- bufs :: |b| < QUICK_SYNC_WRITE_SIZE
    ensures var s := Run(o, events);
            var s' := Run(o, events + [Send(bufs, withCb)]);
            s.queue == [EMPTY] && s.sendsEnabled ==>
              && s'.queue == [EMPTY] && s'.wire == s.wire + Flatten(bufs)
              && s'.fired == s.fired + if withCb then [Fired(|s.sends|, Success, |s'.wire|)] else []
  {
    var s := Run(o, events);
    RunSnoc(o, events, Send(bufs, withCb));
    if s.queue == [EMPTY] && s.sendsEnabled {
      assert !s.running;
      hide Inv, Run;
      AllDirect(o, s, bufs, withCb);
    }
  }

  lemma AllDirect(o: Oracle, s: Conn, bufs: seq<Buffer>, withCb: bool)
    requires s.queue != [] && !s.running && s.sendsEnabled
    requires forall n :: o(n).ec == NoError
    requires forall b <- bufs :: |b| < QUICK_SYNC_WRITE_SIZE
    ensures var s' := DoSend(o, s, bufs, withCb);
            && s'.queue == s.queue && s'.wire == s.wire + Flatten(bufs)
            && s'.fired == s.fired + if withCb then [Fired(|s.sends|, Success, |s'.wire|)] else []
  {
    TryAllDirect(o, s, bufs);
    SendAccepted(o, s, bufs, withCb);
    hide TryAll, DoSend, Initiate;
    var s1 := TryAll(o, s, bufs, true).0;
    assert FiredAll([|s.sends|], Success, |s1.wire|) == [Fired(|s.sends|, Success, |s1.wire|)];
  }

  /** The socket is asked to take a buffer directly exactly if all before it went that way, no
      write runs and it is smaller than 64 KiB. */
  lemma DirectWriteLimit(o: Oracle, s: Conn, buf: Buffer, aggressive: bool)
    requires s.queue != []
    ensures TryAggressive(o, s, buf, aggressive).0.calls == s.calls + if aggressive && !s.running && |buf| < 65536 then 1 else 0
  {
    hide AppendOutgoing;
  }

  lemma {:induction false} TryAllDirect(o: Oracle, s: Conn, bufs: seq<Buffer>)
    requires s.queue != [] && !s.running
    requires forall n :: o(n).ec == NoError
    requires forall b <- bufs :: |b| < QUICK_SYNC_WRITE_SIZE
    ensures var (s1, aggressive) := TryAll(o, s, bufs, true);
            aggressive && s1 == s.(calls := s1.calls, wire := s.wire + Flatten(bufs), taken := s.taken + Flatten(bufs))
    decreases |bufs|
  {
    if bufs == [] {
      assert s.wire + [] == s.wire && s.taken + [] == s.taken;
    } else {
      hide AppendOutgoing;
      var s1 := TryAggressive(o, s, bufs[0], true).0;
      assert bufs[0][..|bufs[0]|] == bufs[0];
      TryAllDirect(o, s1, bufs[1..]);
      assert s.wire + Flatten(bufs) == s.wire + bufs[0] + Flatten(bufs[1..]);
      assert s.taken + Flatten(bufs) == s.taken + bufs[0] + Flatten(bufs[1..]);
    }
  }

  // ---------- Callbacks ----------

  /** A success is reported only when every byte of that send has reached the socket. */
  lemma SuccessMeansWritten(o: Oracle, events: seq<Event>)
    ensures var s := Run(o, events);
            forall f <- s.fired :: f.result == Success ==>
              && f.cb < |s.sends| && s.sends[f.cb].taken
              && (s.sends[f.cb].bufs != [] ==> EndOf(s.sends, f.cb) <= f.wireLen <= |s.wire|)
  {
    assert forall f <- Run(o, events).fired :: FiredCbOk(Run(o, events), f);
  }

  /** With nothing queued every callback has been run: a success for each accepted send, a
      rejection for each other. */
  lemma IdleMeansAnswered(o: Oracle, events: seq<Event>, id: nat)
    ensures var s := Run(o, events);
            s.queue == [EMPTY] && id < |s.sends| && s.sends[id].withCb ==>
              exists f <- s.fired :: f.cb == id && f.result == if s.sends[id].taken then Success else Rejected
  {
    var s := Run(o, events);
    assert CountOk(s, |s.sends|) && FiredOk(s);
    hide Run, Inv;
    if s.queue == [EMPTY] && id < |s.sends| && s.sends[id].withCb {
      OneItem(EMPTY);
      assert Occurrences(s, id) >= 1 && id in Ids(s.fired);
      var n :| 0 <= n < |s.fired| && Ids(s.fired)[n] == id;
      assert FiredCbOk(s, s.fired[n]);
    }
  }

  /** Successes of sends that have a buffer come in the order of the sends. */
  lemma SuccessesComeInOrder(o: Oracle, events: seq<Event>)
    ensures var s := Run(o, events); Known(s.fired, |s.sends|) && Increasing(Successes(s.fired, s.sends))
  {
    var s := Run(o, events);
    var done, queued := Successes(s.fired, s.sends), CbsOf(s.queue);
    assert forall i :: 0 <= i < |done| ==> done[i] == (done + queued)[i];
  }

  predicate AllFailures(fired: seq<Fired>)
  {
    forall f <- fired :: f.result == IoFailure || f.result == DidntSend
  }

  lemma ReportedAll(cbs: seq<nat>, result: SendResult, wireLen: nat)
    ensures Ids(FiredAll(cbs, result, wireLen)) == cbs
    ensures result == IoFailure || result == DidntSend ==> AllFailures(FiredAll(cbs, result, wireLen))
  {
  }

  lemma ReportedBoth(a: seq<Fired>, b: seq<Fired>)
    ensures Ids(a + b) == Ids(a) + Ids(b)
    ensures AllFailures(a) && AllFailures(b) ==> AllFailures(a + b)
  {
  }

  /** What the destructor adds: a failure for every callback still queued. */
  lemma DestroyReports(s: Conn) returns (last: seq<Fired>)
    requires Inv(s)
    ensures Destroy(s).fired == s.fired + last
    ensures Ids(last) == CbsOf(s.queue) && AllFailures(last)
  {
    hide Conserved, CallbacksOk, StatusOk, WatchdogOk, Settled, AllFailures, FiredAll, Ids;
    if 1 < |s.queue| || 0 < |Flatten(s.queue[0].bufs)| {
      if s.running {
        var front, rest := s.queue[0].cbs, CbsOf(s.queue[1..]);
        last := FiredAll(front, IoFailure, |s.wire|) + FiredAll(rest, DidntSend, |s.wire|);
        ReportedAll(front, IoFailure, |s.wire|);
        ReportedAll(rest, DidntSend, |s.wire|);
        ReportedBoth(FiredAll(front, IoFailure, |s.wire|), FiredAll(rest, DidntSend, |s.wire|));
      } else {
        last := FiredAll(CbsOf(s.queue), DidntSend, |s.wire|);
        ReportedAll(CbsOf(s.queue), DidntSend, |s.wire|);
      }
    } else {
      QuietQueue(s);
      last := FiredAll([], DidntSend, |s.wire|);
      ReportedAll([], DidntSend, |s.wire|);
    }
  }

  lemma QuietQueue(s: Conn)
    requires Inv(s) && |s.queue| <= 1
    ensures s.queue == [EMPTY] && CbsOf(s.queue) == []
  {
    hide CallbacksOk, WatchdogOk, Conserved;
    OneItem(EMPTY);
  }

  lemma InIds(fired: seq<Fired>, f: Fired)
    requires f in fired
    ensures f.cb in Ids(fired)
  {
    var i :| 0 <= i < |fired| && fired[i] == f;
    assert Ids(fired)[i] == f.cb;
  }

  /** No callback gets a success and also a failure, not even from the destructor. */
  lemma NeverBothSuccessAndFailure(o: Oracle, events: seq<Event>)
    ensures var fired := Destroy(Run(o, events)).fired;
            forall f, g :: f in fired && g in fired && f.cb == g.cb && f.result == Success ==> g.result == Success
  {
    var s := Run(o, events);
    var last := DestroyReports(s);
    hide Inv, Destroy, Run;
    forall f, g | f in s.fired + last && g in s.fired + last && f.cb == g.cb && f.result == Success
      ensures g.result == Success
    {
      assert f in s.fired;
      if g.result != Success {
        NotQueuedAfterSuccess(s, f);
        FailureIsQueued(s, last, g);
      }
    }
  }

  lemma FailureIsQueued(s: Conn, last: seq<Fired>, g: Fired)
    requires Inv(s) && Ids(last) == CbsOf(s.queue)
    requires g in s.fired + last && g.result != Success
    ensures g.cb in CbsOf(s.queue) || (g.cb < |s.sends| && !s.sends[g.cb].taken)
  {
    if g in s.fired {
      assert FiredCbOk(s, g);
    } else {
      InIds(last, g);
    }
  }

  lemma {:induction false} InSuccesses(fired: seq<Fired>, sends: seq<SendRecord>, f: Fired)
    requires Known(fired, |sends|) && f in fired && f.result == Success && sends[f.cb].bufs != []
    ensures f.cb in Successes(fired, sends)
    decreases |fired|
  {
    var n := |fired| - 1;
    if fired[n] != f {
      assert f in fired[..n];
      InSuccesses(fired[..n], sends, f);
    }
  }

  lemma NotQueuedAfterSuccess(s: Conn, f: Fired)
    requires Inv(s) && f in s.fired && f.result == Success
    ensures f.cb !in CbsOf(s.queue) && f.cb < |s.sends| && s.sends[f.cb].taken
  {
    assert FiredCbOk(s, f);
    if f.cb in CbsOf(s.queue) {
      var i := CbInQueue(s.queue, f.cb);
      assert QueuedCbOk(s, i, f.cb);
      InSuccesses(s.fired, s.sends, f);
      DisjointHalves(Successes(s.fired, s.sends), CbsOf(s.queue), f.cb);
    }
  }

  lemma DisjointHalves(a: seq<nat>, b: seq<nat>, x: nat)
    requires Increasing(a + b) && x in a
    ensures x !in b
  {
    var i :| 0 <= i < |a| && a[i] == x;
    forall j | 0 <= j < |b|
      ensures b[j] != x
    {
      assert (a + b)[i] < (a + b)[|a| + j];
    }
  }

  /** Up to and including destruction every callback is run, and if no write has failed
      exactly once. Nothing else is run. */
  lemma EveryCallbackIsRun(o: Oracle, events: seq<Event>, id: nat)
    ensures var s := Run(o, events);
            var times := multiset(Ids(Destroy(s).fired))[id];
            if id < |s.sends| && s.sends[id].withCb
            then times >= 1 && (!s.failed ==> times == 1)
            else times == 0
  {
    hide Conserved, StatusOk, WatchdogOk, Settled, QueuedOk, FiredOk, OrderOk, Ids, CbsOf, AllFailures;
    var s := Run(o, events);
    var last := DestroyReports(s);
    ReportedBoth(s.fired, last);
    assert multiset(Ids(Destroy(s).fired))[id] == Occurrences(s, id);
  }

  // ---------- Shutdown ----------

  /** A timeout event shuts the connection down exactly while the write that issued it runs
      (and no shutdown has come before), and changes nothing otherwise. */
  lemma OnlyTheRunningWriteTimesOut(o: Oracle, events: seq<Event>, key: nat)
    ensures var s := Run(o, events);
            var s' := Run(o, events + [Timeout(key)]);
            if s.outstanding && s.opKey == key && !s.shutdownCalled
            then s'.shutdowns == s.shutdowns + [WriteTimeout] && !s'.sendsEnabled
            else s' == s
  {
    hide CallbacksOk, Conserved;
    var s := Run(o, events);
    assert (events + [Timeout(key)])[..|events|] == events;
    assert Inv(s);
  }

  /** The shutdown handler runs at most once, and no send is accepted after it. */
  lemma ShutdownOnce(o: Oracle, events: seq<Event>, bufs: seq<Buffer>, withCb: bool)
    ensures var s := Run(o, events);
            && |s.shutdowns| <= 1
            && (|s.shutdowns| == 1 ==> Run(o, events + [Send(bufs, withCb)]).sends == s.sends + [SendRecord(bufs, withCb, false)])
  {
    hide CallbacksOk, Conserved, WatchdogOk;
    var s := Run(o, events);
    assert Inv(s);
    assert (events + [Send(bufs, withCb)])[..|events|] == events;
    SendKeeps(o, s, bufs, withCb);
  }
}
