/** What a connection tells its user and when it ends, over every run: which callbacks get
    which failures, which event ends it for which reason, and what follows a completion. */
module ConnectionReports {
  import opened Bytes
  import opened WritableSequences
  import opened WriteQueue
  import opened QueueLemmas
  import opened WriteQueueInvariant
  import opened ConnectionRuns
  import ConnectionTheorems
  import Draining

  // ---------- Who is told what ----------

  /** The callbacks run with `result`, in the order they were run. */
  function Told(fired: seq<Fired>, result: SendResult): (cbs: seq<nat>)
  {
    if fired == [] then [] else
      var last := fired[|fired| - 1];
      Told(fired[..|fired| - 1], result) + if last.result == result then [last.cb] else []
  }

  lemma {:induction false} ToldConcat(a: seq<Fired>, b: seq<Fired>, result: SendResult)
    ensures Told(a + b, result) == Told(a, result) + Told(b, result)
    decreases |b|
  {
    if b == [] {
      assert a + b == a;
    } else {
      var n := |b| - 1;
      assert (a + b)[..|a + b| - 1] == a + b[..n] && (a + b)[|a + b| - 1] == b[n];
      ToldConcat(a, b[..n], result);
    }
  }

  lemma {:induction false} ToldAll(cbs: seq<nat>, given: SendResult, wireLen: nat, result: SendResult)
    ensures Told(FiredAll(cbs, given, wireLen), result) == if given == result then cbs else []
    decreases |cbs|
  {
    if cbs != [] {
      var n := |cbs| - 1;
      var before := FiredAll(cbs[..n], given, wireLen);
      ToldAll(cbs[..n], given, wireLen, result);
      assert FiredAll(cbs, given, wireLen) == before + [Fired(cbs[n], given, wireLen)];
      assert (before + [Fired(cbs[n], given, wireLen)])[..|before|] == before;
      assert cbs == cbs[..n] + [cbs[n]];
    }
  }

  lemma FireTells(s: Conn, cbs: seq<nat>, given: SendResult)
    ensures forall result :: Told(Fire(s, cbs, given).fired, result) == Told(s.fired, result) + if given == result then cbs else []
  {
    forall result: SendResult
      ensures Told(Fire(s, cbs, given).fired, result) == Told(s.fired, result) + if given == result then cbs else []
    {
      ToldConcat(s.fired, FiredAll(cbs, given, |s.wire|), result);
      ToldAll(cbs, given, |s.wire|, result);
    }
  }

  /** The sends that were not accepted and have a callback. */
  function RefusedSends(sends: seq<SendRecord>): (ids: seq<nat>)
  {
    if sends == [] then [] else
      var n := |sends| - 1;
      RefusedSends(sends[..n]) + if sends[n].withCb && !sends[n].taken then [n] else []
  }

  /** The callbacks of the front item are told of its failure once it has failed, in order,
      and nobody else is; the same for rejections and the sends not accepted. */
  ghost predicate ToldOk(s: Conn)
  {
    && (s.failed ==> s.queue != [] && Told(s.fired, IoFailure) == s.queue[0].cbs)
    && (!s.failed ==> Told(s.fired, IoFailure) == [])
    && Told(s.fired, Rejected) == RefusedSends(s.sends)
    && Told(s.fired, DidntSend) == []
  }

  lemma {:induction false} InitiateTells(o: Oracle, s: Conn)
    requires s.queue != [] && ToldOk(s) && !s.failed
    ensures ToldOk(Initiate(o, s))
    decreases NonEmptyItems(s.queue), 1
  {
    if !s.running && s.queue[0].bufs != [] && QUICK_SYNC_WRITE_SIZE >= |Flatten(s.queue[0].bufs)| {
      var size := |Flatten(s.queue[0].bufs)|;
      var r := SyncWrite(o, s.calls, size);
      FreezeAddsNothing(s.queue);
      InitiateBySyncWrite(o, s);
      hide Initiate, AfterWrite, Told, RefusedSends;
      if r.ec != WouldBlock || r.transferred >= size {
        AfterWriteTells(o, Freeze(Written(s, r.transferred)), if r.ec != WouldBlock then r.ec else OtherError);
      }
    }
  }

  lemma {:induction false} AfterWriteTells(o: Oracle, s: Conn, ec: ErrorCode)
    requires |s.queue| >= 2 && s.queue[0].bufs != [] && ToldOk(s) && !s.failed
    ensures ToldOk(AfterWrite(o, s, ec))
    decreases NonEmptyItems(s.queue), 0
  {
    hide Initiate, Told, RefusedSends, Fire;
    if ec != NoError {
      FailureTells(s, ec);
    } else {
      SuccessTells(s);
      InitiateTells(o, WriteSucceeded(s));
    }
  }

  lemma FailureTells(s: Conn, ec: ErrorCode)
    requires s.queue != [] && ToldOk(s) && !s.failed
    ensures ToldOk(WriteFailed(s, ec))
  {
    FireTells(HandleIoError(s.(key := s.key + 1, failed := true, aborted := ec == Aborted), ec), s.queue[0].cbs, IoFailure);
    hide Told, RefusedSends, FiredAll;
    assert [] + s.queue[0].cbs == s.queue[0].cbs;
  }

  lemma SuccessTells(s: Conn)
    requires s.queue != [] && ToldOk(s) && !s.failed
    ensures ToldOk(WriteSucceeded(s)) && !WriteSucceeded(s).failed
  {
    FireTells(s.(key := s.key + 1), s.queue[0].cbs, Success);
    hide Told, RefusedSends, FiredAll;
  }

  /** Trying to send buffers runs no callback and ends nothing. */
  ghost predicate Quiet(s: Conn, s1: Conn)
  {
    && s1.queue != [] && s1.fired == s.fired && s1.sends == s.sends && s1.failed == s.failed && s1.running == s.running
    && s1.shutdowns == s.shutdowns && s1.shutdownCalled == s.shutdownCalled && s1.calls >= s.calls
  }

  lemma TryOneIsQuiet(o: Oracle, s: Conn, buf: Buffer, aggressive: bool)
    requires s.queue != []
    ensures Quiet(s, TryAggressive(o, s, buf, aggressive).0)
  {
    hide AppendOutgoing;
    assert AppendOutgoing(s.queue, buf) != [] by {
      AppendSplit(s.queue, buf);
    }
    if aggressive && !s.running && |buf| < QUICK_SYNC_WRITE_SIZE {
      AppendSplit(s.queue, buf[SyncWrite(o, s.calls, |buf|).transferred..]);
    }
  }

  lemma {:induction false} TryAllIsQuiet(o: Oracle, s: Conn, bufs: seq<Buffer>, aggressive: bool)
    requires s.queue != []
    ensures Quiet(s, TryAll(o, s, bufs, aggressive).0)
    decreases |bufs|
  {
    if bufs != [] {
      hide TryAggressive;
      var (s1, aggressive1) := TryAggressive(o, s, bufs[0], aggressive);
      TryOneIsQuiet(o, s, bufs[0], aggressive);
      TryAllIsQuiet(o, s1, bufs[1..], aggressive1);
    }
  }

  lemma RefusedSnoc(sends: seq<SendRecord>, r: SendRecord)
    ensures RefusedSends(sends + [r]) == RefusedSends(sends) + if r.withCb && !r.taken then [|sends|] else []
  {
    assert (sends + [r])[..|sends|] == sends;
  }

  lemma SendTells(o: Oracle, s: Conn, bufs: seq<Buffer>, withCb: bool)
    requires Inv(s) && ToldOk(s)
    ensures ToldOk(DoSend(o, s, bufs, withCb))
  {
    var me := |s.sends|;
    RefusedSnoc(s.sends, SendRecord(bufs, withCb, s.sendsEnabled));
    if !s.sendsEnabled {
      FireTells(s.(sends := s.sends + [SendRecord(bufs, withCb, false)]), [me], Rejected);
      hide Told, RefusedSends, Fire;
    } else {
      StillRunning(s);
      SendKeeps(o, s, bufs, withCb);
      SendAccepted(o, s, bufs, withCb);
      TryAllIsQuiet(o, s, bufs, true);
      hide Inv, Told, RefusedSends, DoSend, TryAll;
      var (s1, allAggressive) := TryAll(o, s, bufs, true);
      var s2 := Record(s1, SendRecord(bufs, withCb, true));
      AcceptedTells(o, s, s2, allAggressive, withCb, DoSend(o, s, bufs, withCb));
    }
  }

  lemma AcceptedTells(o: Oracle, s: Conn, s2: Conn, allAggressive: bool, withCb: bool, s': Conn)
    requires ToldOk(s) && (s.failed ==> s.running)
    requires s2.queue != [] && s2.fired == s.fired && s2.failed == s.failed && s2.running == s.running
    requires RefusedSends(s2.sends) == RefusedSends(s.sends)
    requires s' == if allAggressive then (if withCb then Fire(s2, [|s.sends|], Success) else s2)
                   else Initiate(o, if withCb then AttachCb(s2, |s.sends|) else s2)
    requires s.running ==> s.queue != [] && s'.queue != [] && s'.queue[0] == s.queue[0]
    ensures ToldOk(s')
  {
    FireTells(s2, [|s.sends|], Success);
    hide Told, RefusedSends, Fire;
    if !allAggressive {
      var s3 := if withCb then AttachCb(s2, |s.sends|) else s2;
      if s.failed {
        NothingRuns(o, s3);
      } else {
        InitiateTells(o, s3);
      }
    }
  }

  lemma NothingRuns(o: Oracle, s: Conn)
    requires s.queue != [] && s.running
    ensures Initiate(o, s) == s
  {
  }

  lemma StepTells(o: Oracle, s: Conn, e: Event)
    requires Inv(s) && ToldOk(s)
    ensures ToldOk(Step(o, s, e))
  {
    match e
    case Send(bufs, withCb) => SendTells(o, s, bufs, withCb);
    case AsyncDone(ec) =>
      if s.outstanding {
        AnsweredRuns(s);
        OutstandingAnswered(s);
        NotFailedYet(s);
        hide Inv, AfterWrite, Told, RefusedSends;
        var s1 := if ec == NoError then Progress(s, |Flatten(s.queue[0].bufs)|) else s;
        AfterWriteTells(o, s1.(outstanding := false), ec);
      }
    case _ =>
      hide Inv, Told, RefusedSends;
  }

  lemma NotFailedYet(s: Conn)
    requires Inv(s) && s.outstanding
    ensures !s.failed && s.running
  {
  }

  lemma {:induction false} RunTells(o: Oracle, events: seq<Event>)
    ensures ToldOk(Run(o, events))
    decreases |events|
  {
    if events == [] {
      assert Run(o, []) == INITIAL;
    } else {
      hide Inv, Step, ToldOk;
      RunTells(o, events[..|events| - 1]);
      StepTells(o, Run(o, events[..|events| - 1]), events[|events| - 1]);
    }
  }

  /** A failed write is told to every callback of the item it was writing, in order and once,
      and to no other; a send that is not accepted is told so; and nobody is told that a
      buffer was not sent before the connection is destroyed. */
  lemma FailuresAreTold(o: Oracle, events: seq<Event>)
    ensures var s := Run(o, events);
            && s.queue != []
            && Told(s.fired, IoFailure) == (if s.failed then s.queue[0].cbs else [])
            && Told(s.fired, Rejected) == RefusedSends(s.sends)
            && Told(s.fired, DidntSend) == []
  {
    hide Inv;
    RunTells(o, events);
    assert Run(o, events).queue != [] by {
      QueueThere(Run(o, events));
    }
  }

  lemma QueueThere(s: Conn)
    requires Inv(s)
    ensures s.queue != []
  {
  }

  /** What the destructor tells, and whom: the item being written that its write has failed,
      all others that they were not sent. */
  lemma DestroyTells(o: Oracle, events: seq<Event>)
    ensures var s := Run(o, events);
            && s.queue != []
            && TellsTheRest(s, Destroy(s))
  {
    var s := Run(o, events);
    RunTells(o, events);
    QueueThere(s);
    hide Run, TellsTheRest;
    if 1 < |s.queue| || 0 < |Flatten(s.queue[0].bufs)| {
      BusyDestroyTells(s);
    } else {
      ConnectionTheorems.QuietQueue(s);
      QuietDestroyTells(s);
    }
  }

  ghost predicate TellsTheRest(s: Conn, s': Conn)
    requires s.queue != []
  {
    && Told(s'.fired, IoFailure) == Told(s.fired, IoFailure) + (if s.running then s.queue[0].cbs else [])
    && Told(s'.fired, DidntSend) == Told(s.fired, DidntSend) + (if s.running then CbsOf(s.queue[1..]) else CbsOf(s.queue))
    && Told(s'.fired, Success) == Told(s.fired, Success)
    && Told(s'.fired, Rejected) == Told(s.fired, Rejected)
  }

  lemma BusyDestroyTells(s: Conn)
    requires s.queue != [] && (1 < |s.queue| || 0 < |Flatten(s.queue[0].bufs)|)
    ensures TellsTheRest(s, Destroy(s))
  {
    if s.running {
      TwoTell(s, s.queue[0].cbs, CbsOf(s.queue[1..]), Destroy(s));
    } else {
      assert FiredAll([], IoFailure, |s.wire|) == [] && s.fired + [] == s.fired;
      TwoTell(s, [], CbsOf(s.queue), Destroy(s));
    }
  }

  lemma TwoTell(s: Conn, failed: seq<nat>, unsent: seq<nat>, s': Conn)
    requires s.queue != []
    requires s'.fired == Fire(Fire(s, failed, IoFailure), unsent, DidntSend).fired
    requires if s.running then failed == s.queue[0].cbs && unsent == CbsOf(s.queue[1..]) else failed == [] && unsent == CbsOf(s.queue)
    ensures TellsTheRest(s, s')
  {
    FireTells(s, failed, IoFailure);
    FireTells(Fire(s, failed, IoFailure), unsent, DidntSend);
    hide Told, Fire, CbsOf;
  }

  lemma QuietDestroyTells(s: Conn)
    requires Inv(s) && s.queue == [EMPTY] && CbsOf(s.queue) == []
    ensures TellsTheRest(s, Destroy(s))
  {
    hide Told, CbsOf, CallbacksOk, WatchdogOk, Conserved;
    assert !s.running && Destroy(s) == s;
    assert Told(s.fired, IoFailure) + [] == Told(s.fired, IoFailure);
    assert Told(s.fired, DidntSend) + [] == Told(s.fired, DidntSend);
  }
}
