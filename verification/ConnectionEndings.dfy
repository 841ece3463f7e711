/** Which event ends a connection, and for which reason; and which of its branches the drain
    of the queue takes. */
module ConnectionEndings {
  import opened Bytes
  import opened WritableSequences
  import opened WriteQueue
  import opened QueueLemmas
  import opened WriteQueueInvariant
  import opened ConnectionRuns
  import opened ConnectionReports

  /** An operation was cancelled, the peer has closed, or anything else. */
  function ReasonsFor(ec: ErrorCode): (r: seq<ShutdownReason>)
  {
    match ec
    case NoError => []
    case Aborted => []
    case Eof => [EofReason]
    case _ => [IoErrorReason]
  }

  /** The last synchronous write, of `size` bytes, answered with an error, and it was not that
      the socket takes no more for now. */
  ghost predicate AnsweredBadly(o: Oracle, call: nat, size: nat, ec: ErrorCode)
  {
    var a := SyncWrite(o, call, size);
    a.ec == ec && ec != NoError && (ec == WouldBlock ==> a.transferred == size)
  }

  /** The last synchronous write up to `s'` answered badly, which failed the item it wrote and
      ended the connection for that reason. */
  ghost predicate EndsFor(o: Oracle, s: Conn, s': Conn, size: nat, ec: ErrorCode)
  {
    && s'.failed && s'.calls > s.calls
    && AnsweredBadly(o, s'.calls - 1, size, ec)
    && s'.shutdowns == s.shutdowns + if s.shutdownCalled then [] else ReasonsFor(ec)
  }

  /** Nothing has failed and nothing has ended. */
  ghost predicate GoesOn(s: Conn, s': Conn)
  {
    s'.failed == s.failed && s'.shutdowns == s.shutdowns && s'.shutdownCalled == s.shutdownCalled && s'.calls >= s.calls
  }

  ghost predicate EndsBySyncWrite(o: Oracle, s: Conn, s': Conn)
  {
    GoesOn(s, s') || exists size, ec :: EndsFor(o, s, s', size, ec)
  }

  lemma EndsLater(o: Oracle, s: Conn, s1: Conn, s': Conn)
    requires GoesOn(s, s1) && EndsBySyncWrite(o, s1, s')
    ensures EndsBySyncWrite(o, s, s')
  {
    hide AnsweredBadly;
    if !GoesOn(s1, s') {
      var size, ec :| EndsFor(o, s1, s', size, ec);
      assert EndsFor(o, s, s', size, ec);
    }
  }

  lemma {:induction false} InitiateEnds(o: Oracle, s: Conn)
    requires s.queue != []
    ensures EndsBySyncWrite(o, s, Initiate(o, s))
    decreases NonEmptyItems(s.queue), 1
  {
    if !s.running && s.queue[0].bufs != [] && QUICK_SYNC_WRITE_SIZE >= |Flatten(s.queue[0].bufs)| {
      var r := SyncWrite(o, s.calls, |Flatten(s.queue[0].bufs)|);
      if r.ec == NoError {
        var s1 := Freeze(Written(s, r.transferred));
        FreezeAddsNothing(s.queue);
        InitiateBySyncWrite(o, s);
        hide Initiate, AfterWrite, EndsFor;
        AfterSuccessEnds(o, s1);
        EndsLater(o, s, s1, Initiate(o, s));
      } else {
        BadAnswerEnds(o, s);
      }
    } else {
      hide Flatten, EndsFor;
    }
  }

  lemma BadAnswerEnds(o: Oracle, s: Conn)
    requires s.queue != [] && !s.running && s.queue[0].bufs != []
    requires QUICK_SYNC_WRITE_SIZE >= |Flatten(s.queue[0].bufs)|
    requires SyncWrite(o, s.calls, |Flatten(s.queue[0].bufs)|).ec != NoError
    ensures EndsBySyncWrite(o, s, Initiate(o, s))
  {
    var size := |Flatten(s.queue[0].bufs)|;
    var r := SyncWrite(o, s.calls, size);
    var s1 := Written(s, r.transferred);
    InitiateBySyncWrite(o, s);
    SameEndings(s, s1, r.transferred);
    hide Initiate, Flatten, EndsFor, Freeze, Written, StartAsync;
    if r.ec != WouldBlock || r.transferred >= size {
      BadWriteEnds(o, s, Freeze(s1), size, r.ec);
    }
  }

  lemma SameEndings(s: Conn, s1: Conn, transferred: nat)
    requires s.queue != [] && transferred <= |Flatten(s.queue[0].bufs)| && s1 == Written(s, transferred)
    ensures GoesOn(s, StartAsync(s1)) && GoesOn(s, Freeze(s1)) && Freeze(s1).calls == s.calls + 1
    ensures |Freeze(s1).queue| >= 2 && Freeze(s1).queue[0] == s.queue[0]
  {
    hide Flatten;
  }

  lemma BadWriteEnds(o: Oracle, s: Conn, s1: Conn, size: nat, ec: ErrorCode)
    requires GoesOn(s, s1) && s1.calls == s.calls + 1 && |s1.queue| >= 2 && s1.queue[0].bufs != []
    requires AnsweredBadly(o, s.calls, size, ec)
    ensures EndsBySyncWrite(o, s, AfterWrite(o, s1, if ec != WouldBlock then ec else OtherError))
  {
    var given := if ec != WouldBlock then ec else OtherError;
    FailureEnds(s1, given);
    hide AfterWrite, WriteFailed, AnsweredBadly;
    assert EndsFor(o, s, AfterWrite(o, s1, given), size, ec);
  }

  lemma FailureEnds(s: Conn, ec: ErrorCode)
    requires s.queue != [] && ec != NoError
    ensures forall o :: |s.queue| >= 2 && s.queue[0].bufs != [] ==> AfterWrite(o, s, ec) == WriteFailed(s, ec)
    ensures var s' := WriteFailed(s, ec);
            && s'.failed && s'.calls == s.calls
            && s'.shutdowns == s.shutdowns + if s.shutdownCalled then [] else ReasonsFor(ec)
  {
  }

  lemma {:induction false} AfterSuccessEnds(o: Oracle, s: Conn)
    requires |s.queue| >= 2 && s.queue[0].bufs != []
    ensures EndsBySyncWrite(o, s, AfterWrite(o, s, NoError))
    decreases NonEmptyItems(s.queue), 0
  {
    hide Initiate;
    InitiateEnds(o, WriteSucceeded(s));
    EndsLater(o, s, WriteSucceeded(s), AfterWrite(o, s, NoError));
  }

  lemma SendEnds(o: Oracle, s: Conn, bufs: seq<Buffer>, withCb: bool)
    requires Inv(s)
    ensures EndsBySyncWrite(o, s, DoSend(o, s, bufs, withCb))
  {
    QueueThere(s);
    hide Inv;
    if s.sendsEnabled {
      SendAccepted(o, s, bufs, withCb);
      TryAllIsQuiet(o, s, bufs, true);
      hide DoSend, TryAll, Initiate;
      var (s1, allAggressive) := TryAll(o, s, bufs, true);
      var s2 := Record(s1, SendRecord(bufs, withCb, true));
      if !allAggressive {
        var s3 := if withCb then AttachCb(s2, |s.sends|) else s2;
        InitiateEnds(o, s3);
        EndsLater(o, s, s3, DoSend(o, s, bufs, withCb));
      }
    }
  }

  lemma CompletionEnds(o: Oracle, s: Conn, ec: ErrorCode)
    requires Inv(s) && s.outstanding
    ensures if ec == NoError then EndsBySyncWrite(o, s, Step(o, s, AsyncDone(ec)))
            else var s' := Step(o, s, AsyncDone(ec));
                 s'.failed && s'.shutdowns == s.shutdowns + if s.shutdownCalled then [] else ReasonsFor(ec)
  {
    AnsweredRuns(s);
    OutstandingAnswered(s);
    hide Inv, AfterWrite, WriteFailed, Flatten;
    if ec == NoError {
      var s1 := Progress(s, |Flatten(s.queue[0].bufs)|).(outstanding := false);
      AfterSuccessEnds(o, s1);
      EndsLater(o, s, s1, Step(o, s, AsyncDone(ec)));
    } else {
      FailureEnds(s.(outstanding := false), ec);
    }
  }

  /** The events that end a connection, and the reason that the shutdown handler gets. */
  ghost predicate EndedFor(o: Oracle, s: Conn, e: Event, s': Conn)
  {
    match e
    case Shutdown => s'.shutdowns == [UserInitiated] && s'.failed == s.failed
    case ReadFailed(ec) => s'.shutdowns == ReasonsFor(ec) && s'.failed == s.failed
    case Timeout(key) =>
      s'.shutdowns == (if s.outstanding && s.opKey == key then [WriteTimeout] else []) && s'.failed == s.failed
    case AsyncProgress(_) => s'.shutdowns == [] && s'.failed == s.failed
    case AsyncDone(ec) =>
      if s.outstanding && ec != NoError then s'.failed && s'.shutdowns == ReasonsFor(ec) else EndsBySyncWrite(o, s, s')
    case Send(_, _) => EndsBySyncWrite(o, s, s')
  }

  /** While no shutdown has come, each event ends the connection exactly as said above; and
      afterwards none does any more. */
  lemma EndedForItsReason(o: Oracle, events: seq<Event>, e: Event)
    ensures var s, s' := Run(o, events), Run(o, events + [e]);
            if s.shutdownCalled then s'.shutdowns == s.shutdowns else s.shutdowns == [] && EndedFor(o, s, e, s')
  {
    hide EndedFor, Inv, Step;
    RunSnoc(o, events, e);
    ShutdownLog(o, Run(o, events), e);
    if !Run(o, events).shutdownCalled {
      StepEnds(o, Run(o, events), e);
    }
  }

  lemma StepEnds(o: Oracle, s: Conn, e: Event)
    requires Inv(s) && !s.shutdownCalled && s.shutdowns == []
    ensures EndedFor(o, s, e, Step(o, s, e))
  {
    hide Inv, EndsBySyncWrite, Complete, DoSend, Progress;
    match e
    case Send(bufs, withCb) =>
      SendEnds(o, s, bufs, withCb);
    case AsyncDone(ec) =>
      if s.outstanding {
        CompletionEnds(o, s, ec);
      } else {
        Unchanged(o, s);
      }
    case Timeout(key) =>
      KeyIsCurrent(s, key);
    case AsyncProgress(n) =>
      ProgressEndsNothing(o, s, n);
    case _ =>
  }

  lemma Unchanged(o: Oracle, s: Conn)
    ensures EndsBySyncWrite(o, s, s)
  {
  }

  lemma ProgressEndsNothing(o: Oracle, s: Conn, n: nat)
    requires Inv(s)
    ensures var s' := Step(o, s, AsyncProgress(n));
            s'.shutdowns == s.shutdowns && s'.failed == s.failed && s'.shutdownCalled == s.shutdownCalled
  {
    hide Inv, Flatten;
  }

  lemma ShutdownLog(o: Oracle, s: Conn, e: Event)
    requires Inv(s)
    ensures !s.shutdownCalled ==> s.shutdowns == []
    ensures s.shutdownCalled ==> Step(o, s, e).shutdowns == s.shutdowns
  {
    StepKeepsInv(o, s, e);
    OneEnding(s);
    OneEnding(Step(o, s, e));
    hide Inv, Step;
  }

  lemma OneEnding(s: Conn)
    requires Inv(s)
    ensures |s.shutdowns| == if s.shutdownCalled then 1 else 0
  {
  }

  lemma KeyIsCurrent(s: Conn, key: nat)
    requires Inv(s) && !s.shutdownCalled
    ensures (key in s.issued && s.running && key == s.key) <==> (s.outstanding && s.opKey == key)
  {
  }

  /** The step that ends the connection leaves no timeout event that would still count. */
  lemma EndingCancelsTheWatch(o: Oracle, events: seq<Event>, e: Event)
    ensures var s, s' := Run(o, events), Run(o, events + [e]);
            !s.shutdownCalled && s'.shutdownCalled ==> s'.key !in s'.issued
  {
    hide EndedFor, Inv, Step;
    RunSnoc(o, events, e);
    StepKeepsInv(o, Run(o, events), e);
    StepCancels(o, Run(o, events), e);
  }

  lemma FailedHasNoWatch(s: Conn)
    requires Inv(s) && s.failed
    ensures s.key !in s.issued
  {
  }

  lemma EndedMeansFailed(o: Oracle, s: Conn, s': Conn)
    requires EndsBySyncWrite(o, s, s') && !s.shutdownCalled && s'.shutdownCalled
    ensures s'.failed
  {
    hide AnsweredBadly;
  }

  lemma StepCancels(o: Oracle, s: Conn, e: Event)
    requires Inv(s) && Inv(Step(o, s, e))
    ensures !s.shutdownCalled && Step(o, s, e).shutdownCalled ==> Step(o, s, e).key !in Step(o, s, e).issued
  {
    var s' := Step(o, s, e);
    if !s.shutdownCalled && s'.shutdownCalled {
      if e.Send? || e.AsyncDone? {
        hide Inv, DoSend, Complete, EndsBySyncWrite;
        if e.Send? {
          SendEnds(o, s, e.bufs, e.withCb);
          EndedMeansFailed(o, s, s');
        } else {
          CompletionEnds(o, s, e.ec);
          if e.ec == NoError {
            EndedMeansFailed(o, s, s');
          }
        }
        FailedHasNoWatch(s');
      } else {
        assert forall k <- s.issued :: k <= s.key;
        hide Inv, DoSend, Complete;
      }
    }
  }

  // ---------- What follows a completion ----------

  /** The item behind a completed one: nothing is done if it has no buffers; it is written
      asynchronously if it is too large for a synchronous write, or as far as the socket did
      not take it; its write fails if the socket answered with another error; else it has
      been written whole. */
  ghost predicate NextIsWritten(o: Oracle, s: Conn, s': Conn)
  {
    |s.queue| >= 2
    && var next := s.queue[1];
       var size := |Flatten(next.bufs)|;
       var a := SyncWrite(o, s.calls, size);
       if next.bufs == [] then
         s'.queue == [EMPTY] && !s'.running && !s'.failed && s'.calls == s.calls
       else if size > 65536 then
         s'.outstanding && s'.queue != [] && s'.queue[0] == next && s'.frontDone == 0 && s'.calls == s.calls
       else if a.ec == WouldBlock && a.transferred < size then
         s'.outstanding && s'.queue != [] && s'.queue[0] == next && s'.frontDone == a.transferred && s'.calls == s.calls + 1
       else if a.ec != NoError then
         s'.failed && !s'.running && s'.queue != [] && s'.queue[0] == next && s'.calls == s.calls + 1
       else
         s'.calls > s.calls && |s'.wire| >= |s.wire| + size
  }

  lemma {:induction false} WireGrows(o: Oracle, s: Conn)
    requires s.queue != []
    ensures s.wire <= Initiate(o, s).wire && s.calls <= Initiate(o, s).calls
    decreases NonEmptyItems(s.queue), 1
  {
    if !s.running && s.queue[0].bufs != [] && QUICK_SYNC_WRITE_SIZE >= |Flatten(s.queue[0].bufs)| {
      var r := SyncWrite(o, s.calls, |Flatten(s.queue[0].bufs)|);
      FreezeAddsNothing(s.queue);
      InitiateBySyncWrite(o, s);
      hide Initiate, AfterWrite, Flatten;
      if r.ec != WouldBlock || r.transferred >= |Flatten(s.queue[0].bufs)| {
        WireGrowsAfter(o, Freeze(Written(s, r.transferred)), if r.ec != WouldBlock then r.ec else OtherError);
      }
    }
  }

  lemma {:induction false} WireGrowsAfter(o: Oracle, s: Conn, ec: ErrorCode)
    requires |s.queue| >= 2 && s.queue[0].bufs != []
    ensures s.wire <= AfterWrite(o, s, ec).wire && s.calls <= AfterWrite(o, s, ec).calls
    decreases NonEmptyItems(s.queue), 0
  {
    if ec == NoError {
      hide Initiate;
      WireGrows(o, WriteSucceeded(s));
    }
  }

  /** The front item that a drain finds behind the completed one of `before`. */
  lemma FrontIsWritten(o: Oracle, before: Conn, s: Conn)
    requires QueueOk(s.queue) && !s.running && !s.failed && s.frontDone == 0 && !s.outstanding
    requires |before.queue| >= 2 && before.queue[1..] == s.queue && before.calls == s.calls && |before.wire| <= |s.wire|
    ensures NextIsWritten(o, before, Initiate(o, s))
  {
    var front := s.queue[0];
    assert before.queue[1] == front;
    var size := |Flatten(front.bufs)|;
    if front.bufs == [] {
      assert s.queue == [EMPTY];
    } else if size <= QUICK_SYNC_WRITE_SIZE {
      FrontIsTried(o, before, s);
    } else {
      hide Flatten;
      assert Initiate(o, s) == StartAsync(s);
    }
  }

  lemma FrontIsTried(o: Oracle, before: Conn, s: Conn)
    requires s.queue != [] && !s.running && !s.failed && s.frontDone == 0 && !s.outstanding
    requires s.queue[0].bufs != [] && |Flatten(s.queue[0].bufs)| <= QUICK_SYNC_WRITE_SIZE
    requires |before.queue| >= 2 && before.queue[1] == s.queue[0] && before.calls == s.calls && |before.wire| <= |s.wire|
    ensures NextIsWritten(o, before, Initiate(o, s))
  {
    var size := |Flatten(s.queue[0].bufs)|;
    var a := SyncWrite(o, s.calls, size);
    var s1 := Freeze(Written(s, a.transferred));
    InitiateBySyncWrite(o, s);
    assert s1.queue[0] == s.queue[0] && |s1.wire| == |s.wire| + a.transferred && s1.calls == s.calls + 1;
    hide Initiate, Flatten;
    if a.ec != WouldBlock || a.transferred >= size {
      var ec := if a.ec != WouldBlock then a.ec else OtherError;
      if ec == NoError {
        WireGrowsAfter(o, s1, ec);
      } else {
        FailedFront(s1, ec);
        assert Initiate(o, s) == WriteFailed(s1, ec);
      }
    }
  }

  lemma FailedFront(s: Conn, ec: ErrorCode)
    requires s.queue != [] && !s.running
    ensures var s' := WriteFailed(s, ec); s'.failed && !s'.running && s'.queue == s.queue && s'.calls == s.calls
  {
  }

  lemma AfterCompletion(o: Oracle, events: seq<Event>)
    ensures var s, s' := Run(o, events), Run(o, events + [AsyncDone(NoError)]);
            s.outstanding ==> NextIsWritten(o, s, s')
  {
    var s := Run(o, events);
    RunSnoc(o, events, AsyncDone(NoError));
    if s.outstanding {
      hide Run, NextIsWritten;
      AnsweredRuns(s);
      OutstandingAnswered(s);
      var s1 := Progress(s, |Flatten(s.queue[0].bufs)|).(outstanding := false);
      CompletedRest(s, s1);
      FrontIsWritten(o, s, WriteSucceeded(s1));
      assert Step(o, s, AsyncDone(NoError)) == Initiate(o, WriteSucceeded(s1)) by {
        hide Initiate, Inv;
      }
    }
  }

  lemma CompletedRest(s: Conn, s1: Conn)
    requires Inv(s) && s.outstanding && |s.queue| >= 2 && s.frontDone <= |Flatten(s.queue[0].bufs)|
    requires s1 == Progress(s, |Flatten(s.queue[0].bufs)|).(outstanding := false)
    ensures var rest := WriteSucceeded(s1);
            && rest.queue == s.queue[1..] && QueueOk(rest.queue) && !rest.failed && !rest.running && !rest.outstanding
            && rest.frontDone == 0 && rest.calls == s.calls && |s.wire| <= |rest.wire|
  {
    hide CallbacksOk, WatchdogOk, Flatten;
  }
}
