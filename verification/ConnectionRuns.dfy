/** Every run of a connection: any order of sends, write completions, timeout events and
    shutdowns, with any answers from the operating system. */
module ConnectionRuns {
  import opened Bytes
  import opened WriteQueue
  import opened QueueLemmas
  import opened WriteQueueInvariant

  /** Events that cannot occur in a state leave it as it is. */
  function Step(o: Oracle, s: Conn, e: Event): (s': Conn)
    requires Inv(s)
  {
    match e
    case Send(bufs, withCb) => DoSend(o, s, bufs, withCb)
    case AsyncProgress(n) => if s.outstanding then Progress(s, n) else s
    case AsyncDone(ec) => if s.outstanding then Complete(o, s, ec) else s
    case Timeout(key) => if key in s.issued then HandleTimeout(s, key) else s
    case ReadFailed(ec) => if ec == NoError then s else HandleIoError(s, ec)
    case Shutdown => DoShutdown(s, UserInitiated)
  }

  /** The state after a list of events. */
  function Run(o: Oracle, events: seq<Event>): (s: Conn)
    ensures Inv(s)
    decreases |events|
  {
    if events == [] then
      InitialInv();
      INITIAL
    else
      var s := Run(o, events[..|events| - 1]);
      StepKeepsInv(o, s, events[|events| - 1]);
      Step(o, s, events[|events| - 1])
  }

  lemma RunSnoc(o: Oracle, events: seq<Event>, e: Event)
    ensures Run(o, events + [e]) == Step(o, Run(o, events), e)
  {
    assert (events + [e])[..|events|] == events;
  }

  lemma InitialInv()
    ensures Inv(INITIAL)
  {
    var s := INITIAL;
    assert BytesOf(s.queue) == [];
    assert CbsOf(s.queue) == [];
    assert Ids(s.fired) == [];
  }

  // ---------- Every step keeps the invariant ----------

  lemma FreezeShape(q: seq<Item>)
    requires QueueOk(q) && q[0].bufs != []
    ensures var r := Frozen(q);
            && QueueOk(r) && |r| >= 2 && r[0] == q[0]
            && BytesOf(r) == BytesOf(q) && CbsOf(r) == CbsOf(q)
  {
    if |q| == 1 {
      TwoItems(q[0], EMPTY);
      OneItem(q[0]);
      assert q == [q[0]] && q + [EMPTY] == [q[0], EMPTY];
      assert Flatten(EMPTY.bufs) == [];
    }
  }

  lemma FreezeKeepsQueued(s: Conn)
    requires QueueOk(s.queue) && QueuedOk(s)
    ensures QueuedOk(Freeze(s))
  {
    var s' := Freeze(s);
    forall i, cb | 0 <= i < |s'.queue| && cb in s'.queue[i].cbs
      ensures QueuedCbOk(s', i, cb)
    {
      assert QueuedCbOk(s, i, cb);
      if |s.queue| == 1 {
        assert s'.queue[i + 1..] == [EMPTY];
        OneItem(EMPTY);
      }
    }
  }

  lemma FreezeKeepsCallbacks(s: Conn)
    requires Conserved(s) && s.queue[0].bufs != [] && CallbacksOk(s)
    ensures Conserved(Freeze(s)) && CallbacksOk(Freeze(s)) && |Freeze(s).queue| >= 2
  {
    hide QueuedOk, OrderOk, QueueOk;
    var s' := Freeze(s);
    FreezeShape(s.queue);
    FreezeKeepsQueued(s);
    assert FiredOk(s') by {
      assert forall f <- s'.fired :: FiredCbOk(s, f);
    }
    assert CountOk(s', |s'.sends|) by {
      assert forall id :: Occurrences(s', id) == Occurrences(s, id);
    }
    assert OrderOk(s') by {
      SameOrder(s, s');
    }
  }

  lemma SameOrder(s: Conn, s': Conn)
    requires OrderOk(s) && s'.fired == s.fired && s'.sends == s.sends && CbsOf(s'.queue) == CbsOf(s.queue)
    ensures OrderOk(s')
  {
  }

  /** The front item moves on to `upTo` written bytes. */
  lemma FrontWritten(s: Conn, upTo: nat, calls: nat)
    requires Conserved(s) && CallbacksOk(s)
    requires s.frontDone <= upTo <= |Flatten(s.queue[0].bufs)|
    ensures var s' := s.(calls := calls, wire := s.wire + Flatten(s.queue[0].bufs)[s.frontDone..upTo], frontDone := upTo);
            Conserved(s') && CallbacksOk(s')
  {
    var s' := s.(calls := calls, wire := s.wire + Flatten(s.queue[0].bufs)[s.frontDone..upTo], frontDone := upTo);
    var all := BytesOf(s.queue);
    assert Flatten(s.queue[0].bufs)[s.frontDone..upTo] == all[s.frontDone..upTo];
    assert all[s.frontDone..] == all[s.frontDone..upTo] + all[upTo..];
    forall i, cb | 0 <= i < |s'.queue| && cb in s'.queue[i].cbs
      ensures QueuedCbOk(s', i, cb)
    {
      assert QueuedCbOk(s, i, cb);
    }
    assert forall f <- s'.fired :: FiredCbOk(s, f);
    assert forall id :: Occurrences(s', id) == Occurrences(s, id);
  }

  /** Fields that no callback depends on. */
  lemma SameCallbacks(s: Conn, s': Conn)
    requires CallbacksOk(s)
    requires s' == s.(running := s'.running, sendsEnabled := s'.sendsEnabled, shutdownCalled := s'.shutdownCalled,
                      shutdowns := s'.shutdowns, key := s'.key, outstanding := s'.outstanding,
                      opKey := s'.opKey, issued := s'.issued)
    ensures CallbacksOk(s')
  {
    assert forall i, cb :: 0 <= i < |s'.queue| && cb in s'.queue[i].cbs ==> QueuedCbOk(s, i, cb);
    assert forall f <- s'.fired :: FiredCbOk(s, f);
    assert forall id :: Occurrences(s', id) == Occurrences(s, id);
  }

  /** What a drain of the queue keeps. */
  ghost predicate Drained(s: Conn, s': Conn)
  {
    Mid(s') && Settled(s') && LogsGrow(s, s') && s'.sends == s.sends && s'.taken == s.taken
  }

  lemma StartAsyncKeeps(s: Conn)
    requires Conserved(s) && CallbacksOk(s) && WatchdogOk(s)
    requires !s.failed && s.queue[0].bufs != []
    requires ShutdownOk(s)
    ensures Drained(s, StartAsync(s))
  {
    hide QueuedOk, FiredOk, OrderOk, CountOk;
    var s1 := s.(key := s.key + 1, opKey := s.key + 1, issued := s.issued + {s.key + 1},
                 outstanding := true, running := true);
    SameCallbacks(s, s1);
    FreezeKeepsCallbacks(s1);
  }

  lemma WrittenKeeps(s: Conn, transferred: nat)
    requires Mid(s) && !s.running && !s.failed && s.queue[0].bufs != []
    requires transferred <= |Flatten(s.queue[0].bufs)|
    ensures var s1 := Written(s, transferred);
            && Conserved(s1) && CallbacksOk(s1) && WatchdogOk(s1) && Answered(Freeze(s1))
            && LogsGrow(s, s1) && Freeze(s1).queue[0] == s.queue[0]
  {
    var s1 := Written(s, transferred);
    FrontWritten(s, transferred, s.calls + 1);
    FreezeKeepsCallbacks(s1);
  }

  lemma DrainedTrans(a: Conn, b: Conn, c: Conn)
    requires LogsGrow(a, b) && b.sends == a.sends && b.taken == a.taken && Drained(b, c)
    ensures Drained(a, c)
  {
    hide Mid, Settled;
  }

  lemma NothingToWrite(s: Conn)
    requires Mid(s) && s.queue[0].bufs == []
    ensures Settled(s)
  {
    if |s.queue| > 1 {
      assert false;
    }
  }

  lemma InitiateKeeps(o: Oracle, s: Conn)
    requires Mid(s) && (s.failed ==> s.running)
    ensures Drained(s, Initiate(o, s))
    ensures s.running ==> Initiate(o, s) == s
    decreases NonEmptyItems(s.queue), 1
  {
    hide Conserved, CallbacksOk, StatusOk, WatchdogOk, Settled, QueueOk;
    if s.running {
      NothingToDo(s);
    } else if s.queue[0].bufs == [] {
      NothingToDo(s);
    } else if QUICK_SYNC_WRITE_SIZE >= |Flatten(s.queue[0].bufs)| {
      SyncWriteKeeps(o, s);
    } else {
      NotShutTwice(s);
      StartAsyncKeeps(s);
    }
  }

  lemma SyncWriteKeeps(o: Oracle, s: Conn)
    requires Mid(s) && !s.running && !s.failed && s.queue[0].bufs != []
    requires QUICK_SYNC_WRITE_SIZE >= |Flatten(s.queue[0].bufs)|
    ensures Drained(s, Initiate(o, s))
    decreases NonEmptyItems(s.queue), 0, 1
  {
    hide Conserved, CallbacksOk, StatusOk, WatchdogOk, Settled, Drained, QueueOk;
    var size := |Flatten(s.queue[0].bufs)|;
    var r := SyncWrite(o, s.calls, size);
    var s1 := Written(s, r.transferred);
    WrittenKeeps(s, r.transferred);
    FreezeAddsNothing(s.queue);
    if r.ec != WouldBlock || r.transferred >= size {
      var ec := if r.ec != WouldBlock then r.ec else OtherError;
      AfterWriteKeeps(o, Freeze(s1), ec);
      DrainedTrans(s, Freeze(s1), AfterWrite(o, Freeze(s1), ec));
    } else {
      StartAsyncKeeps(s1);
      DrainedTrans(s, s1, StartAsync(s1));
    }
  }

  lemma NothingToDo(s: Conn)
    requires Mid(s) && (s.running || s.queue[0].bufs == [])
    ensures Drained(s, s)
  {
    hide CallbacksOk, WatchdogOk;
    if !s.running {
      NothingToWrite(s);
    }
  }

  lemma NotShutTwice(s: Conn)
    requires Mid(s)
    ensures Conserved(s) && CallbacksOk(s) && WatchdogOk(s) && ShutdownOk(s)
  {
  }

  lemma AfterWriteKeeps(o: Oracle, s: Conn, ec: ErrorCode)
    requires Answered(s) && s.queue[0].bufs != []
    requires ec == NoError ==> s.frontDone == |Flatten(s.queue[0].bufs)|
    requires ec == Aborted ==> s.running
    ensures Drained(s, AfterWrite(o, s, ec))
    decreases NonEmptyItems(s.queue), 0, 0
  {
    hide Conserved, CallbacksOk, StatusOk, WatchdogOk, Settled, QueueOk;
    if ec != NoError {
      WriteFailedKeeps(s, ec);
    } else {
      WriteSucceededKeeps(s);
      InitiateKeeps(o, WriteSucceeded(s));
      DrainedTrans(s, WriteSucceeded(s), AfterWrite(o, s, ec));
    }
  }

  /** What a send keeps, and that it leaves a front item being written alone. */
  ghost predicate Sent(s: Conn, s': Conn, r: SendRecord)
  {
    && Inv(s') && LogsGrow(s, s') && s'.sends == s.sends + [r]
    && (s.running ==> s.queue != [] && s'.queue != [] && s'.queue[0] == s.queue[0])
  }

  lemma SendRejected(o: Oracle, s: Conn, bufs: seq<Buffer>, withCb: bool)
    requires Inv(s) && !s.sendsEnabled
    ensures Sent(s, DoSend(o, s, bufs, withCb), SendRecord(bufs, withCb, false))
  {
    hide Conserved, CallbacksOk, StatusOk, WatchdogOk, TryAll, Initiate, Attach;
    var r := SendRecord(bufs, withCb, false);
    TakenBytesSnoc(s.sends, r);
    assert s.taken + [] == s.taken;
    hide TakenBytes, Flatten, CbsOf, FiredAll, QueueOk;
    if withCb {
      RecordFired(s, r, Rejected);
    } else {
      RecordSilent(s, r);
    }
  }

  /** A send whose buffers have all gone out directly. */
  lemma SentDirectly(s: Conn, s1: Conn, r: SendRecord)
    requires Inv(s) && Mid(s1) && SameBut(s, s1) && s.wire <= s1.wire
    requires r.taken && s.sendsEnabled && s1.taken == s.taken + Flatten(r.bufs)
    requires s1.queue == s.queue && (r.bufs != [] ==> !s.running)
    ensures var s2 := Record(s1, r);
            Sent(s, if r.withCb then Fire(s2, [|s.sends|], Success) else s2, r)
  {
    TakenBytesSnoc(s.sends, r);
    hide CallbacksOk, StatusOk, WatchdogOk, Conserved, QueueOk, TakenBytes, Flatten, CbsOf, FiredAll;
    if r.withCb {
      NothingQueued(s, s1, r);
      RecordFired(s1, r, Success);
    } else {
      RecordSilent(s1, r);
    }
  }

  /** A send of which something has been queued. */
  lemma SentByQueue(o: Oracle, s: Conn, s1: Conn, r: SendRecord)
    requires Inv(s) && Mid(s1) && SameBut(s, s1) && s.wire <= s1.wire
    requires r.taken && s.sendsEnabled && s1.taken == s.taken + Flatten(r.bufs)
    requires r.bufs != [] && s1.queue[|s1.queue| - 1].bufs != []
    requires s.running ==> s1.queue[0] == s.queue[0]
    ensures var s2 := Record(s1, r);
            Sent(s, Initiate(o, if r.withCb then AttachCb(s2, |s.sends|) else s2), r)
  {
    TakenBytesSnoc(s.sends, r);
    hide CallbacksOk, StatusOk, WatchdogOk, Conserved, QueueOk, Initiate, TakenBytes, Flatten;
    var s2 := Record(s1, r);
    if r.withCb {
      RecordQueued(s1, r);
      AttachedFront(s1, r, |s.sends|);
      StillRunning(AttachCb(s2, |s.sends|));
      InitiateKeeps(o, AttachCb(s2, |s.sends|));
    } else {
      RecordSilent(s1, r);
      StillRunning(s2);
      InitiateKeeps(o, s2);
    }
  }

  lemma StillRunning(s: Conn)
    requires StatusOk(s) && s.sendsEnabled
    ensures s.failed ==> s.running
  {
  }

  lemma AttachedFront(s: Conn, r: SendRecord, cb: nat)
    requires Mid(s)
    ensures s.running ==> AttachCb(Record(s, r), cb).queue[0] == s.queue[0]
  {
  }

  lemma NothingQueued(s: Conn, s1: Conn, r: SendRecord)
    requires Inv(s) && s.sendsEnabled && Conserved(s1) && s1.queue == s.queue && s1.frontDone == s.frontDone
    requires r.bufs != [] ==> !s.running
    ensures r.bufs != [] ==> CbsOf(s1.queue) == [] && s1.taken == s1.wire
  {
    hide CallbacksOk, WatchdogOk;
    OneItem(EMPTY);
  }

  /** An accepted send, as what is left to do once its buffers have been tried. */
  lemma SendAccepted(o: Oracle, s: Conn, bufs: seq<Buffer>, withCb: bool)
    requires s.queue != [] && s.sendsEnabled
    ensures var (s1, allAggressive) := TryAll(o, s, bufs, true);
            var s2 := Record(s1, SendRecord(bufs, withCb, true));
            && s2.queue != []
            && DoSend(o, s, bufs, withCb)
               == if allAggressive then (if withCb then Fire(s2, [|s.sends|], Success) else s2)
                  else Initiate(o, if withCb then AttachCb(s2, |s.sends|) else s2)
  {
    hide Initiate, TryAll, Fire, Attach;
    TryAllKeepsQueue(o, s, bufs, true);
  }

  lemma SendKeeps(o: Oracle, s: Conn, bufs: seq<Buffer>, withCb: bool)
    requires Inv(s)
    ensures Sent(s, DoSend(o, s, bufs, withCb), SendRecord(bufs, withCb, s.sendsEnabled))
  {
    if !s.sendsEnabled {
      SendRejected(o, s, bufs, withCb);
    } else {
      StillRunning(s);
      hide Conserved, StatusOk, WatchdogOk, CallbacksOk, DoSend, TryAll, Initiate, Fire, AttachCb, Sent, LogsGrow;
      TryAllKeeps(o, s, bufs, true);
      var (s1, allAggressive) := TryAll(o, s, bufs, true);
      if allAggressive {
        SentDirectly(s, s1, SendRecord(bufs, withCb, true));
      } else {
        SentByQueue(o, s, s1, SendRecord(bufs, withCb, true));
      }
      SendAccepted(o, s, bufs, withCb);
    }
  }

  lemma ProgressKeeps(s: Conn, n: nat)
    requires Inv(s) && s.outstanding
    ensures Inv(Progress(s, n)) && LogsGrow(s, Progress(s, n))
  {
    hide QueuedOk, FiredOk, OrderOk, CountOk;
    var size := |Flatten(s.queue[0].bufs)|;
    FrontWritten(s, if s.frontDone + n <= size then s.frontDone + n else size, s.calls);
  }

  lemma OutstandingAnswered(s: Conn)
    requires Inv(s) && s.outstanding
    ensures Answered(s.(outstanding := false)) && s.queue[0].bufs != []
  {
    hide QueuedOk, FiredOk, OrderOk, CountOk;
    SameCallbacks(s, s.(outstanding := false));
  }

  lemma CompleteKeeps(o: Oracle, s: Conn, ec: ErrorCode)
    requires Inv(s) && s.outstanding
    ensures Inv(Complete(o, s, ec)) && LogsGrow(s, Complete(o, s, ec)) && Complete(o, s, ec).sends == s.sends
  {
    hide Answered, CallbacksOk, WatchdogOk, QueueOk, TakenBytes, StatusOk;
    var size := |Flatten(s.queue[0].bufs)|;
    ProgressKeeps(s, size);
    var s1 := if ec == NoError then Progress(s, size) else s;
    OutstandingAnswered(s);
    OutstandingAnswered(s1);
    var s2 := s1.(outstanding := false);
    AnsweredRuns(s1);
    AfterWriteKeeps(o, s2, ec);
    assert Complete(o, s, ec) == AfterWrite(o, s2, ec);
    DrainKeepsInv(s, s1, s2, AfterWrite(o, s2, ec));
  }

  lemma DrainKeepsInv(s: Conn, s1: Conn, s2: Conn, s': Conn)
    requires Inv(s1) && LogsGrow(s, s1) && s2 == s1.(outstanding := false) && Drained(s2, s')
    ensures Inv(s') && LogsGrow(s, s') && s'.sends == s1.sends
  {
    hide Mid, Settled;
  }

  lemma AnsweredRuns(s: Conn)
    requires Inv(s) && s.outstanding
    ensures s.running && |s.queue| >= 2
  {
  }

  lemma DoShutdownKeeps(s: Conn, reason: ShutdownReason)
    requires Inv(s)
    ensures Inv(DoShutdown(s, reason)) && LogsGrow(s, DoShutdown(s, reason))
  {
    hide QueuedOk, FiredOk, OrderOk, CountOk;
    SameCallbacks(s, DoShutdown(s, reason));
  }

  lemma StepKeepsInv(o: Oracle, s: Conn, e: Event)
    requires Inv(s)
    ensures Inv(Step(o, s, e)) && LogsGrow(s, Step(o, s, e))
  {
    hide Inv, DoSend, Complete, Progress, DoShutdown;
    match e
    case Send(bufs, withCb) => SendKeeps(o, s, bufs, withCb);
    case AsyncProgress(n) => if s.outstanding { ProgressKeeps(s, n); }
    case AsyncDone(ec) => if s.outstanding { CompleteKeeps(o, s, ec); }
    case Timeout(key) => DoShutdownKeeps(s, WriteTimeout);
    case ReadFailed(ec) => DoShutdownKeeps(s, if ec == Eof then EofReason else IoErrorReason);
    case Shutdown => DoShutdownKeeps(s, UserInitiated);
  }

  /** The log of sends gets one record for each send, and no other. */
  lemma OnlySendsAreLogged(o: Oracle, s: Conn, e: Event)
    requires Inv(s)
    ensures Step(o, s, e).sends == s.sends + if e.Send? then [SendRecord(e.bufs, e.withCb, s.sendsEnabled)] else []
  {
    hide Inv, DoSend, Complete;
    match e
    case Send(bufs, withCb) => SendKeeps(o, s, bufs, withCb);
    case AsyncDone(ec) => if s.outstanding { CompleteKeeps(o, s, ec); }
    case _ =>
  }
}
